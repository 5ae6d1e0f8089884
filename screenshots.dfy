/**
 * The file-name part of an error screenshot: the conversation name (or
 * "conversation") with every maximal run of characters outside
 * `[A-Za-z0-9_-]` replaced by one underscore. The timestamp and the file
 * I/O around it are not modelled.
 */
module Screenshots {
  import opened Wrappers
  import opened JsText

  /** `[a-z0-9-_]` under the `i` flag. */
  predicate IsSafe(c: char) {
    ('a' <= c <= 'z') || ('A' <= c <= 'Z') || ('0' <= c <= '9') || c == '-' || c == '_'
  }

  predicate AllSafe(s: string) {
    forall i :: 0 <= i < |s| ==> IsSafe(s[i])
  }

  /** The replacement scan; `inRun` says the previous character was unsafe and already replaced. */
  function Collapse(s: string, inRun: bool): string {
    if s == [] then []
    else if IsSafe(s[0]) then [s[0]] + Collapse(s[1..], false)
    else if inRun then Collapse(s[1..], true)
    else "_" + Collapse(s[1..], true)
  }

  /** `s.replace(/[^a-z0-9-_]+/gi, '_')` */
  function ReplaceUnsafeRuns(s: string): string {
    Collapse(s, false)
  }

  /** `(conversationName || 'conversation').replace(...)` */
  function SafeName(name: Option<string>): string {
    ReplaceUnsafeRuns(if Truthy(name) then name.value else "conversation")
  }

  lemma {:induction false} CollapseSpec(s: string, inRun: bool)
    ensures AllSafe(Collapse(s, inRun))
    ensures |Collapse(s, inRun)| <= |s|
    ensures AllSafe(s) ==> Collapse(s, inRun) == s
  {
    if s != [] {
      CollapseSpec(s[1..], !IsSafe(s[0]));
      var r := Collapse(s, inRun);
      var rest := Collapse(s[1..], !IsSafe(s[0]));
      if IsSafe(s[0]) || !inRun {
        assert r == [if IsSafe(s[0]) then s[0] else '_'] + rest;
        assert forall i :: 0 < i < |r| ==> r[i] == rest[i - 1];
      }
      if AllSafe(s) {
        assert AllSafe(s[1..]) by {
          assert forall i :: 0 <= i < |s| - 1 ==> s[1..][i] == s[i + 1];
        }
      }
    }
  }

  /** No character of `u` is safe. */
  predicate NoneSafe(u: string) {
    forall i :: 0 <= i < |u| ==> !IsSafe(u[i])
  }

  /** `n[i..j]` is a non-empty run of unsafe characters that cannot be extended either way. */
  predicate MaximalUnsafeRun(n: string, i: nat, j: nat) {
    i < j <= |n| && NoneSafe(n[i..j]) && (i == 0 || IsSafe(n[i - 1])) && (j == |n| || IsSafe(n[j]))
  }

  /**
   * Safe names consist of safe characters only and are no longer than the
   * name; a safe name is kept; every safe character of the name is kept in
   * place, and every maximal run of unsafe characters becomes one `_`.
   */
  lemma SafeNameSpec(name: Option<string>)
    ensures AllSafe(SafeName(name))
    ensures Truthy(name) ==> |SafeName(name)| <= |name.value|
    ensures Truthy(name) && AllSafe(name.value) ==> SafeName(name) == name.value
    ensures Truthy(name) ==> forall i :: 0 <= i < |name.value| && IsSafe(name.value[i]) ==>
      SafeName(name) == ReplaceUnsafeRuns(name.value[..i]) + [name.value[i]] + ReplaceUnsafeRuns(name.value[i + 1..])
    ensures Truthy(name) ==> forall i: nat, j: nat ::
      MaximalUnsafeRun(name.value, i, j) ==>
      SafeName(name) == ReplaceUnsafeRuns(name.value[..i]) + "_" + ReplaceUnsafeRuns(name.value[j..])
    ensures !Truthy(name) ==> SafeName(name) == "conversation"
  {
    if Truthy(name) {
      var n := name.value;
      GivenNameSpec(n);
      assert SafeName(name) == ReplaceUnsafeRuns(n);
    } else {
      DefaultNameIsSafe();
      assert SafeName(name) == ReplaceUnsafeRuns("conversation");
    }
  }

  /**
   * The replacement for a given name: safe characters only, no longer than
   * the name, a safe name kept, every safe character kept in place and every
   * maximal run of unsafe characters replaced by one `_`.
   */
  lemma GivenNameSpec(n: string)
    ensures AllSafe(ReplaceUnsafeRuns(n)) && |ReplaceUnsafeRuns(n)| <= |n|
    ensures AllSafe(n) ==> ReplaceUnsafeRuns(n) == n
    ensures forall i :: 0 <= i < |n| && IsSafe(n[i]) ==>
      ReplaceUnsafeRuns(n) == ReplaceUnsafeRuns(n[..i]) + [n[i]] + ReplaceUnsafeRuns(n[i + 1..])
    ensures forall i: nat, j: nat ::
      MaximalUnsafeRun(n, i, j) ==>
      ReplaceUnsafeRuns(n) == ReplaceUnsafeRuns(n[..i]) + "_" + ReplaceUnsafeRuns(n[j..])
  {
    CollapseSpec(n, false);
    SafeCharactersKept(n);
    UnsafeRunsReplaced(n);
  }

  lemma SafeCharactersKept(n: string)
    ensures forall i :: 0 <= i < |n| && IsSafe(n[i]) ==>
      ReplaceUnsafeRuns(n) == ReplaceUnsafeRuns(n[..i]) + [n[i]] + ReplaceUnsafeRuns(n[i + 1..])
  {
    forall i | 0 <= i < |n| && IsSafe(n[i])
      ensures ReplaceUnsafeRuns(n) == ReplaceUnsafeRuns(n[..i]) + [n[i]] + ReplaceUnsafeRuns(n[i + 1..])
    {
      assert n == n[..i] + ([n[i]] + n[i + 1..]);
      CollapseThroughSafe(n[..i], n[i], n[i + 1..], false);
    }
  }

  lemma UnsafeRunsReplaced(n: string)
    ensures forall i: nat, j: nat :: MaximalUnsafeRun(n, i, j) ==>
      ReplaceUnsafeRuns(n) == ReplaceUnsafeRuns(n[..i]) + "_" + ReplaceUnsafeRuns(n[j..])
  {
    forall i: nat, j: nat | MaximalUnsafeRun(n, i, j)
      ensures ReplaceUnsafeRuns(n) == ReplaceUnsafeRuns(n[..i]) + "_" + ReplaceUnsafeRuns(n[j..])
    {
      UnsafeRunReplacedAt(n, i, j);
    }
  }

  /** The maximal unsafe run `n[i..j]` becomes one `_`. */
  lemma UnsafeRunReplacedAt(n: string, i: nat, j: nat)
    requires MaximalUnsafeRun(n, i, j)
    ensures ReplaceUnsafeRuns(n) == ReplaceUnsafeRuns(n[..i]) + "_" + ReplaceUnsafeRuns(n[j..])
  {
    assert n == n[..i] + n[i..j] + n[j..];
    assert i > 0 ==> n[..i][i - 1] == n[i - 1];
    assert j < |n| ==> n[j..][0] == n[j];
    ReplaceRun(n[..i], n[i..j], n[j..]);
  }

  /** A safe character is copied whatever precedes it, and no run is open after it. */
  lemma {:induction false} CollapseThroughSafe(a: string, c: char, b: string, inRun: bool)
    requires IsSafe(c)
    ensures Collapse(a + ([c] + b), inRun) == Collapse(a, inRun) + [c] + Collapse(b, false)
    decreases |a|
  {
    if a == [] {
      assert a + ([c] + b) == [c] + b;
      assert ([c] + b)[1..] == b;
    } else {
      assert (a + ([c] + b))[0] == a[0];
      assert (a + ([c] + b))[1..] == a[1..] + ([c] + b);
      CollapseThroughSafe(a[1..], c, b, !IsSafe(a[0]));
    }
  }

  /** A run of unsafe characters followed by a safe one (or the end) gives one `_`, or nothing inside an open run. */
  lemma {:induction false} CollapseRun(u: string, b: string, inRun: bool)
    requires u != [] && NoneSafe(u)
    requires b == [] || IsSafe(b[0])
    ensures Collapse(u + b, inRun) == (if inRun then "" else "_") + Collapse(b, false)
    decreases |u|
  {
    assert (u + b)[0] == u[0];
    assert (u + b)[1..] == u[1..] + b;
    if |u| > 1 {
      assert NoneSafe(u[1..]) by {
        assert forall i :: 0 <= i < |u| - 1 ==> u[1..][i] == u[i + 1];
      }
      CollapseRun(u[1..], b, true);
    } else {
      assert u[1..] + b == b;
    }
  }

  /** Between safe characters, or the ends of the name, a maximal unsafe run is replaced by one `_`. */
  lemma ReplaceRun(a: string, u: string, b: string)
    requires a == [] || IsSafe(a[|a| - 1])
    requires u != [] && NoneSafe(u)
    requires b == [] || IsSafe(b[0])
    ensures ReplaceUnsafeRuns(a + u + b) == ReplaceUnsafeRuns(a) + "_" + ReplaceUnsafeRuns(b)
  {
    CollapseRun(u, b, false);
    if a == [] {
      assert a + u + b == u + b;
    } else {
      assert a + u + b == a + (u + b);
      CollapseAppend(a, u + b, false);
    }
  }

  lemma DefaultNameIsSafe()
    ensures ReplaceUnsafeRuns("conversation") == "conversation"
    ensures AllSafe("conversation")
  {
    var d := "conversation";
    assert forall i :: 0 <= i < |d| ==> 'a' <= d[i] <= 'z';
    CollapseSpec(d, false);
  }

  /** Sanitising an already sanitised name changes nothing. */
  lemma SafeNameIdempotent(name: Option<string>)
    ensures ReplaceUnsafeRuns(SafeName(name)) == SafeName(name)
  {
    SafeNameSpec(name);
    CollapseSpec(SafeName(name), false);
  }

  /** A run never spans a safe character, so the replacement works piecewise across one. */
  lemma {:induction false} CollapseAppend(a: string, b: string, inRun: bool)
    requires a != [] && IsSafe(a[|a| - 1])
    ensures Collapse(a + b, inRun) == Collapse(a, inRun) + Collapse(b, false)
  {
    assert (a + b)[0] == a[0];
    assert (a + b)[1..] == a[1..] + b;
    if |a| > 1 {
      CollapseAppend(a[1..], b, !IsSafe(a[0]));
    } else {
      assert a[1..] == [];
      assert a[1..] + b == b;
    }
  }

  lemma ReplaceExamples()
    ensures ReplaceUnsafeRuns("a b") == "a_b"
    ensures ReplaceUnsafeRuns("a, b") == "a_b"
    ensures ReplaceUnsafeRuns("x-y_z") == "x-y_z"
  {
  }
}
