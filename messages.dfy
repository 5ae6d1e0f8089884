/**
 * The message-list algebra of the proxy: a message and its identity key,
 * the last-seen-marker diff the watcher uses, the "keep the latest copy"
 * de-duplication, and the noise filter applied to every read.
 */
module Messages {
  import opened Wrappers
  import opened JsText

  /** A message as read from the page: an optional sender and the text. */
  datatype Message = Message(sender: Option<string>, text: string)

  /** `m.sender || ''` */
  function SenderOrEmpty(m: Message): string {
    if Truthy(m.sender) then m.sender.value else ""
  }

  /** The identity of a message: the sender (or nothing), a colon, the text. */
  function Key(m: Message): string {
    SenderOrEmpty(m) + ":" + m.text
  }

  function Keys(ms: seq<Message>): (keys: seq<string>)
    ensures |keys| == |ms| && forall i :: 0 <= i < |ms| ==> keys[i] == Key(ms[i])
  {
    if ms == [] then [] else [Key(ms[0])] + Keys(ms[1..])
  }

  /** A key is never empty, so a stored marker is always truthy. */
  lemma KeyIsTruthy(m: Message)
    ensures Truthy(Some(Key(m)))
  {
    assert Key(m)[|SenderOrEmpty(m)|] == ':';
  }

  // ---------------------------------------------------------------------
  // diffMessages

  /** `Array.prototype.lastIndexOf`: the last position of `x`, or -1. */
  function LastIndexOf<T(==)>(xs: seq<T>, x: T): (r: int)
    ensures -1 <= r < |xs|
    ensures r >= 0 ==> xs[r] == x && forall j :: r < j < |xs| ==> xs[j] != x
    ensures r == -1 ==> forall j :: 0 <= j < |xs| ==> xs[j] != x
  {
    if xs == [] then -1
    else if xs[|xs| - 1] == x then |xs| - 1
    else LastIndexOf(xs[..|xs| - 1], x)
  }

  datatype Diff = Diff(newMessages: seq<Message>, lastSeenKey: Option<string>)

  /** Position `i` holds the last message of `ms` whose key is `key`. */
  predicate IsLastMarker(ms: seq<Message>, i: nat, key: string) {
    && i < |ms| && Key(ms[i]) == key
    && forall j :: i < j < |ms| ==> Key(ms[j]) != key
  }

  /**
   * Where the new messages start: one past the last message carrying the
   * marker, or 0 when the marker is falsy or no message carries it.
   */
  function NewFrom(prevLastKey: Option<string>, ms: seq<Message>): (from: nat)
    ensures from <= |ms|
    ensures Truthy(prevLastKey) ==> forall j :: from <= j < |ms| ==> Key(ms[j]) != prevLastKey.value
    ensures from > 0 ==> Truthy(prevLastKey) && Key(ms[from - 1]) == prevLastKey.value
  {
    var lastIndex := if Truthy(prevLastKey) then LastIndexOf(Keys(ms), prevLastKey.value) else -1;
    if lastIndex >= 0 then lastIndex + 1 else 0
  }

  /** `prevLastKey` is the key stored after the previous poll, if any. */
  function DiffMessages(prevLastKey: Option<string>, ms: seq<Message>): Diff {
    var newMessages := ms[NewFrom(prevLastKey, ms)..];
    var lastSeenKey := if |ms| > 0 then Some(Key(ms[|ms| - 1])) else prevLastKey;
    Diff(newMessages, lastSeenKey)
  }

  /**
   * The new messages are a suffix of the batch: everything after the last
   * message carrying the marker, or the whole batch when the marker is falsy
   * or absent; none of them carries the marker. The new marker is the key
   * of the final message, or the old marker for an empty batch.
   */
  lemma DiffMessagesSpec(prevLastKey: Option<string>, ms: seq<Message>)
    ensures var d := DiffMessages(prevLastKey, ms);
      && (exists i: nat :: i <= |ms| && d.newMessages == ms[i..])
      && (Truthy(prevLastKey) ==>
            forall j :: 0 <= j < |d.newMessages| ==> Key(d.newMessages[j]) != prevLastKey.value)
      && (forall i: nat :: Truthy(prevLastKey) && IsLastMarker(ms, i, prevLastKey.value) ==>
            d.newMessages == ms[i + 1..])
      && ((!Truthy(prevLastKey) || forall j :: 0 <= j < |ms| ==> Key(ms[j]) != prevLastKey.value) ==>
            d.newMessages == ms)
      && (|ms| > 0 ==> d.lastSeenKey == Some(Key(ms[|ms| - 1])))
      && (|ms| == 0 ==> d.lastSeenKey == prevLastKey)
  {
    DiffIsSuffix(prevLastKey, ms);
    DiffSkipsMarker(prevLastKey, ms);
    forall i: nat | Truthy(prevLastKey) && IsLastMarker(ms, i, prevLastKey.value)
      ensures DiffMessages(prevLastKey, ms).newMessages == ms[i + 1..]
    {
      DiffAfterLastMarker(prevLastKey, ms, i);
    }
    if !Truthy(prevLastKey) || forall j :: 0 <= j < |ms| ==> Key(ms[j]) != prevLastKey.value {
      DiffWithoutMarkerKey(prevLastKey, ms);
    }
  }

  lemma DiffIsSuffix(prevLastKey: Option<string>, ms: seq<Message>)
    ensures exists i: nat :: i <= |ms| && DiffMessages(prevLastKey, ms).newMessages == ms[i..]
  {
    var from := NewFrom(prevLastKey, ms);
    assert DiffMessages(prevLastKey, ms).newMessages == ms[from..];
  }

  /** No new message carries a truthy marker. */
  lemma DiffSkipsMarker(prevLastKey: Option<string>, ms: seq<Message>)
    ensures var d := DiffMessages(prevLastKey, ms);
      Truthy(prevLastKey) ==> forall j :: 0 <= j < |d.newMessages| ==> Key(d.newMessages[j]) != prevLastKey.value
  {
    var from := NewFrom(prevLastKey, ms);
    var d := DiffMessages(prevLastKey, ms);
    assert d.newMessages == ms[from..];
    if Truthy(prevLastKey) {
      forall j | 0 <= j < |d.newMessages| ensures Key(d.newMessages[j]) != prevLastKey.value {
        assert d.newMessages[j] == ms[from + j];
        assert Key(ms[from + j]) != prevLastKey.value;
      }
    }
  }

  /** The new messages are exactly those after the last message carrying the marker. */
  lemma DiffAfterLastMarker(prevLastKey: Option<string>, ms: seq<Message>, i: nat)
    requires Truthy(prevLastKey) && IsLastMarker(ms, i, prevLastKey.value)
    ensures DiffMessages(prevLastKey, ms).newMessages == ms[i + 1..]
  {
    var from := NewFrom(prevLastKey, ms);
    assert DiffMessages(prevLastKey, ms).newMessages == ms[from..];
    assert from == i + 1;
  }

  /** A falsy marker, or one no message carries, makes the whole batch new. */
  lemma DiffWithoutMarkerKey(prevLastKey: Option<string>, ms: seq<Message>)
    requires !Truthy(prevLastKey) || forall j :: 0 <= j < |ms| ==> Key(ms[j]) != prevLastKey.value
    ensures DiffMessages(prevLastKey, ms).newMessages == ms
  {
    var from := NewFrom(prevLastKey, ms);
    assert DiffMessages(prevLastKey, ms).newMessages == ms[from..];
    assert from == 0;
    assert ms[0..] == ms;
  }

  /** Diffing a batch against the marker it produced itself yields nothing new. */
  lemma DiffAgainstOwnMarker(prevLastKey: Option<string>, ms: seq<Message>)
    ensures DiffMessages(DiffMessages(prevLastKey, ms).lastSeenKey, ms).newMessages ==
      (if |ms| == 0 && !Truthy(prevLastKey) then ms else [])
  {
    if |ms| > 0 {
      KeyIsTruthy(ms[|ms| - 1]);
      DiffMessagesSpec(prevLastKey, ms);
      DiffMessagesSpec(Some(Key(ms[|ms| - 1])), ms);
      assert IsLastMarker(ms, |ms| - 1, Key(ms[|ms| - 1]));
    }
  }

  /**
   * When the next read shows the previous batch followed by `extra`, and no
   * message of `extra` has the old marker's key, exactly `extra` is new.
   */
  lemma DiffOfExtendedBatch(prevLastKey: Option<string>, before: seq<Message>, extra: seq<Message>)
    requires |before| > 0
    requires forall j :: 0 <= j < |extra| ==> Key(extra[j]) != Key(before[|before| - 1])
    ensures DiffMessages(DiffMessages(prevLastKey, before).lastSeenKey, before + extra).newMessages == extra
  {
    var ms := before + extra;
    var i := |before| - 1;
    var key := Key(before[i]);
    KeyIsTruthy(before[i]);
    assert DiffMessages(prevLastKey, before).lastSeenKey == Some(key);
    forall j | i < j < |ms| ensures Key(ms[j]) != key {
      assert ms[j] == extra[j - |before|];
    }
    DiffAfterLastMarker(Some(key), ms, i);
    assert ms[i + 1..] == extra;
  }

  // ---------------------------------------------------------------------
  // dedupeMessages

  function KeySet(ms: seq<Message>): set<string> {
    if ms == [] then {} else {Key(ms[0])} + KeySet(ms[1..])
  }

  lemma {:induction false} KeySetMembers(ms: seq<Message>, k: string)
    ensures k in KeySet(ms) <==> exists i :: 0 <= i < |ms| && Key(ms[i]) == k
  {
    if ms != [] {
      KeySetMembers(ms[1..], k);
      if k in KeySet(ms[1..]) {
        var i :| 0 <= i < |ms| - 1 && Key(ms[1..][i]) == k;
        assert Key(ms[i + 1]) == k;
      }
      if exists i :: 0 <= i < |ms| && Key(ms[i]) == k {
        var i :| 0 <= i < |ms| && Key(ms[i]) == k;
        if i > 0 {
          assert Key(ms[1..][i - 1]) == k;
        }
      }
    }
  }

  /**
   * The de-duplicated list: an element is dropped exactly when a later
   * element has the same key.
   */
  function KeepLast(ms: seq<Message>): seq<Message> {
    if ms == [] then []
    else if Key(ms[0]) in KeySet(ms[1..]) then KeepLast(ms[1..])
    else [ms[0]] + KeepLast(ms[1..])
  }

  function Reversed<T>(s: seq<T>): seq<T> {
    if s == [] then [] else [s[|s| - 1]] + Reversed(s[..|s| - 1])
  }

  /** `dedupeMessages`: walk from the end, keep a key the first time it is seen, reverse. */
  method DedupeMessages(ms: seq<Message>) returns (r: seq<Message>)
    ensures r == KeepLast(ms)
  {
    var seen: set<string> := {};
    var result: seq<Message> := [];
    var i := |ms|;
    while i > 0
      invariant 0 <= i <= |ms|
      invariant seen == KeySet(ms[i..])
      invariant Reversed(result) == KeepLast(ms[i..])
    {
      i := i - 1;
      assert ms[i..][1..] == ms[i + 1..];
      var key := Key(ms[i]);
      if key in seen {
        continue;
      }
      seen := seen + {key};
      assert (result + [ms[i]])[..|result|] == result;
      result := result + [ms[i]];
    }
    assert ms[0..] == ms;
    r := Reversed(result);
  }

  /** `a` is `b` with some elements removed, order kept. */
  predicate IsSubsequence<T(==)>(a: seq<T>, b: seq<T>) {
    if a == [] then true
    else if b == [] then false
    else (a[0] == b[0] && IsSubsequence(a[1..], b[1..])) || IsSubsequence(a, b[1..])
  }

  lemma {:induction false} SubsequenceReflexive<T>(a: seq<T>)
    ensures IsSubsequence(a, a)
  {
    if a != [] {
      SubsequenceReflexive(a[1..]);
    }
  }

  /** Position `j` holds the last message with its key. */
  predicate IsLastOccurrence(ms: seq<Message>, j: nat)
    requires j < |ms|
  {
    forall k :: j < k < |ms| ==> Key(ms[k]) != Key(ms[j])
  }

  /** An independent description: the messages at last-occurrence positions from `j` on, in order. */
  function LastOccurrences(ms: seq<Message>, j: nat): seq<Message>
    requires j <= |ms|
    decreases |ms| - j
  {
    if j == |ms| then []
    else (if IsLastOccurrence(ms, j) then [ms[j]] else []) + LastOccurrences(ms, j + 1)
  }

  /** The de-duplicated list is exactly the last occurrence of every key, in input order. */
  lemma {:induction false} KeepLastIsLastOccurrences(ms: seq<Message>, j: nat)
    requires j <= |ms|
    ensures KeepLast(ms[j..]) == LastOccurrences(ms, j)
    decreases |ms| - j
  {
    if j < |ms| {
      KeepLastIsLastOccurrences(ms, j + 1);
      assert ms[j..][1..] == ms[j + 1..];
      KeySetMembers(ms[j + 1..], Key(ms[j]));
      if !IsLastOccurrence(ms, j) {
        var k :| j < k < |ms| && Key(ms[k]) == Key(ms[j]);
        assert Key(ms[j + 1..][k - j - 1]) == Key(ms[j]);
      }
    }
  }

  lemma {:induction false} KeepLastSubsequence(ms: seq<Message>)
    ensures IsSubsequence(KeepLast(ms), ms)
  {
    if ms != [] {
      KeepLastSubsequence(ms[1..]);
    }
  }

  lemma {:induction false} KeepLastSameKeys(ms: seq<Message>)
    ensures KeySet(KeepLast(ms)) == KeySet(ms)
  {
    if ms != [] {
      KeepLastSameKeys(ms[1..]);
      if Key(ms[0]) !in KeySet(ms[1..]) {
        assert ([ms[0]] + KeepLast(ms[1..]))[1..] == KeepLast(ms[1..]);
      }
    }
  }

  predicate DistinctKeys(ms: seq<Message>) {
    forall i, j :: 0 <= i < j < |ms| ==> Key(ms[i]) != Key(ms[j])
  }

  lemma {:induction false} KeepLastDistinct(ms: seq<Message>)
    ensures DistinctKeys(KeepLast(ms))
  {
    if ms != [] {
      KeepLastDistinct(ms[1..]);
      if Key(ms[0]) !in KeySet(ms[1..]) {
        var rest := KeepLast(ms[1..]);
        KeepLastSameKeys(ms[1..]);
        forall j | 0 <= j < |rest|
          ensures Key(rest[j]) != Key(ms[0])
        {
          KeySetMembers(rest, Key(ms[0]));
        }
        var r := [ms[0]] + rest;
        assert forall j :: 0 < j < |r| ==> r[j] == rest[j - 1];
      }
    }
  }

  /** A list whose keys are already distinct is left unchanged. */
  lemma {:induction false} KeepLastOfDistinct(ms: seq<Message>)
    requires DistinctKeys(ms)
    ensures KeepLast(ms) == ms
  {
    if ms != [] {
      assert DistinctKeys(ms[1..]) by {
        assert forall j :: 0 <= j < |ms| - 1 ==> ms[1..][j] == ms[j + 1];
      }
      KeepLastOfDistinct(ms[1..]);
      KeySetMembers(ms[1..], Key(ms[0]));
    }
  }

  lemma KeepLastIdempotent(ms: seq<Message>)
    ensures KeepLast(KeepLast(ms)) == KeepLast(ms)
  {
    KeepLastDistinct(ms);
    KeepLastOfDistinct(KeepLast(ms));
  }

  // ---------------------------------------------------------------------
  // filterMessages

  /**
   * The shapes of the ignore patterns. Every case-insensitive one compares
   * with `SameCI`; `Clock` (`^\d{1,2}:\d{2}$`) is the only case-sensitive one.
   */
  datatype NoisePattern =
    | Contains(lit: string)             // unanchored literal
    | Exactly(alternatives: seq<string>) // `^...$` around a literal with a choice
    | Prefix(lit: string)               // `^` literal, no end anchor
    | Clock                             // `^\d{1,2}:\d{2}$`
    | DayAndClock(days: seq<string>)    // `^(days)[, ]+\d{1,2}:\d{2}$`

  /** The ignore list in its source order. */
  const IgnorePatterns: seq<NoisePattern> := [
    Contains("Wiadomości i połączenia są zabezpieczone pełnym szyfrowaniem"),
    Exactly(["Otworz", "Otwórz"]),
    Exactly(["Dowiedz się więcej"]),
    Prefix("Wprowadź kod PIN"),
    Exactly(["Odpowiedz", "Odpowiedz?"]),
    Clock,
    DayAndClock(["Pon", "Wt", "Śr", "Sro", "Czw", "Pt", "Sob", "Nd", "Niedz",
                 "Sun", "Mon", "Tue", "Wed", "Thu", "Fri", "Sat"]),
    Contains("Powiadomienia push są wyłączone"),
    Contains("Włącz powiadomienia, aby być na bieżąco"),
    Exactly(["Włącz"]),
    Exactly(["Nie teraz"])
  ]

  /** `\d{1,2}:\d{2}` as the whole of `t`. */
  predicate IsClock(t: string) {
    && (|t| == 4 || |t| == 5)
    && t[|t| - 3] == ':'
    && AllDigits(t, 0, |t| - 3) && AllDigits(t, |t| - 2, |t|)
  }

  predicate IsDaySeparator(c: char) {
    c == ',' || c == ' '
  }

  predicate DayAndClockMatch(t: string, days: seq<string>) {
    exists i: nat, j: nat :: i < j <= |t|
      && (exists d :: d in days && EqualsCI(t[..i], d))
      && (forall k :: i <= k < j ==> IsDaySeparator(t[k]))
      && IsClock(t[j..])
  }

  /** `re.test(t)` for one pattern. */
  predicate PatternMatches(p: NoisePattern, t: string) {
    match p
    case Contains(lit) => ContainsCI(t, lit)
    case Exactly(alts) => exists a :: a in alts && EqualsCI(t, a)
    case Prefix(lit) => StartsWithCI(t, lit)
    case Clock => IsClock(t)
    case DayAndClock(days) => DayAndClockMatch(t, days)
  }

  predicate IsNoise(t: string) {
    exists p :: p in IgnorePatterns && PatternMatches(p, t)
  }

  /** The filter's condition: a non-empty text that matches no ignore pattern. */
  predicate IsSignal(m: Message) {
    m.text != "" && !IsNoise(m.text)
  }

  function KeepSignal(ms: seq<Message>): seq<Message> {
    if ms == [] then []
    else (if IsSignal(ms[0]) then [ms[0]] else []) + KeepSignal(ms[1..])
  }

  /** `filterMessages`: a missing or empty list gives the empty list. */
  function FilterMessages(ms: Option<seq<Message>>): (r: seq<Message>)
    ensures ms.None? ==> r == []
  {
    if ms.None? || |ms.value| == 0 then [] else KeepSignal(ms.value)
  }

  /** The filter keeps exactly the signal messages. */
  lemma {:induction false} KeepSignalMembers(ms: seq<Message>)
    ensures forall m :: m in KeepSignal(ms) <==> m in ms && IsSignal(m)
  {
    if ms != [] {
      KeepSignalMembers(ms[1..]);
      assert ms == [ms[0]] + ms[1..];
    }
  }

  lemma {:induction false} KeepSignalSubsequence(ms: seq<Message>)
    ensures IsSubsequence(KeepSignal(ms), ms)
  {
    if ms != [] {
      KeepSignalSubsequence(ms[1..]);
      var rest := KeepSignal(ms[1..]);
      if IsSignal(ms[0]) {
        assert KeepSignal(ms) == [ms[0]] + rest;
        assert ([ms[0]] + rest)[1..] == rest;
      } else {
        assert KeepSignal(ms) == rest;
      }
    }
  }

  /** Filtering distributes over concatenation, so it keeps the input order. */
  lemma {:induction false} KeepSignalAppend(a: seq<Message>, b: seq<Message>)
    ensures KeepSignal(a + b) == KeepSignal(a) + KeepSignal(b)
  {
    if a != [] {
      assert (a + b)[1..] == a[1..] + b;
      KeepSignalAppend(a[1..], b);
    } else {
      assert a + b == b;
    }
  }

  lemma FilterMessagesSpec(ms: Option<seq<Message>>)
    ensures ms.None? ==> FilterMessages(ms) == []
    ensures ms.Some? ==> forall m :: m in FilterMessages(ms) <==> m in ms.value && IsSignal(m)
    ensures ms.Some? ==> IsSubsequence(FilterMessages(ms), ms.value)
  {
    if ms.Some? {
      KeepSignalMembers(ms.value);
      KeepSignalSubsequence(ms.value);
    }
  }

  lemma {:induction false} KeepSignalIdempotent(ms: seq<Message>)
    ensures KeepSignal(KeepSignal(ms)) == KeepSignal(ms)
  {
    if ms != [] {
      KeepSignalIdempotent(ms[1..]);
      KeepSignalAppend(if IsSignal(ms[0]) then [ms[0]] else [], KeepSignal(ms[1..]));
    }
  }

  /** Keys that are distinct stay distinct under any subsequence. */
  lemma {:induction false} SubsequenceKeepsDistinct(a: seq<Message>, b: seq<Message>)
    requires IsSubsequence(a, b) && DistinctKeys(b)
    ensures DistinctKeys(a)
  {
    if a != [] && b != [] {
      assert DistinctKeys(b[1..]) by {
        assert forall j :: 0 <= j < |b| - 1 ==> b[1..][j] == b[j + 1];
      }
      if a[0] == b[0] && IsSubsequence(a[1..], b[1..]) {
        SubsequenceKeepsDistinct(a[1..], b[1..]);
        forall j | 0 < j < |a|
          ensures Key(a[j]) != Key(a[0])
        {
          SubsequenceMember(a[1..], b[1..], j - 1);
          var k :| 0 <= k < |b| - 1 && b[1..][k] == a[1..][j - 1];
          assert b[k + 1] == a[j];
        }
        assert forall j :: 0 < j < |a| ==> a[j] == a[1..][j - 1];
      } else {
        SubsequenceKeepsDistinct(a, b[1..]);
      }
    }
  }

  lemma {:induction false} SubsequenceMember<T>(a: seq<T>, b: seq<T>, i: nat)
    requires IsSubsequence(a, b) && i < |a|
    ensures exists k :: 0 <= k < |b| && b[k] == a[i]
  {
    if a[0] == b[0] && IsSubsequence(a[1..], b[1..]) {
      if i > 0 {
        SubsequenceMember(a[1..], b[1..], i - 1);
        var k :| 0 <= k < |b| - 1 && b[1..][k] == a[1..][i - 1];
        assert b[k + 1] == a[i];
      } else {
        assert b[0] == a[0];
      }
    } else {
      SubsequenceMember(a, b[1..], i);
      var k :| 0 <= k < |b| - 1 && b[1..][k] == a[i];
      assert b[k + 1] == a[i];
    }
  }

  // ---------------------------------------------------------------------
  // Worked examples

  /** With no marker the whole batch is new, and the marker becomes the last key. */
  lemma DiffWithoutMarker()
    ensures DiffMessages(None, [Message(None, "a"), Message(None, "b")])
      == Diff([Message(None, "a"), Message(None, "b")], Some(":b"))
  {
    assert Key(Message(None, "b")) == ":b";
  }

  /** With marker `":b"` only what follows `b` is new. */
  lemma DiffAfterMarker()
    ensures DiffMessages(Some(":b"), [Message(None, "a"), Message(None, "b"), Message(None, "c")])
      == Diff([Message(None, "c")], Some(":c"))
  {
    var ms := [Message(None, "a"), Message(None, "b"), Message(None, "c")];
    assert Key(ms[0]) == ":a" && Key(ms[1]) == ":b" && Key(ms[2]) == ":c";
    var keys := Keys(ms);
    assert keys == [":a", ":b", ":c"];
    assert ":c" != ":b" by { assert ":c"[1] != ":b"[1]; }
    assert keys[..2] == [":a", ":b"];
    assert LastIndexOf(keys[..2], ":b") == 1;
    assert LastIndexOf(keys, ":b") == 1;
    assert ms[2..] == [Message(None, "c")];
  }

  lemma ClockIsNoise()
    ensures IsNoise("12:30") && IsNoise("9:05")
  {
    assert PatternMatches(IgnorePatterns[5], "12:30");
    assert PatternMatches(IgnorePatterns[5], "9:05");
  }

  lemma DayAndClockIsNoise()
    ensures IsNoise("Pon, 12:30")
  {
    var t := "Pon, 12:30";
    assert EqualsCI(t[..3], "Pon") && IsClock(t[5..]);
    assert DayAndClockMatch(t, IgnorePatterns[6].days);
    assert PatternMatches(IgnorePatterns[6], t);
  }

  lemma PolishCaseIsNoise()
    ensures IsNoise("otwórz")
  {
    assert EqualsCI("otwórz", "Otwórz");
    assert PatternMatches(IgnorePatterns[1], "otwórz");
  }
}
