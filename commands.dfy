/**
 * The two chat commands and the conversation-reference classifier.
 *
 * `parseSendInstruction` matches `/^send\s+(.+?)\s*::\s*(.+)$/i` and
 * `parseReadInstruction` matches `/^read\s+(.+?)(?:\s*::\s*(\d+))?$/i`.
 * Both share one frame, a four-letter keyword, `\s+`, a lazy group 1 and a
 * tail, so the matcher below is written once for both and follows the order
 * in which a backtracking regular-expression engine tries the alternatives:
 * `\s+` from its longest length down, then group 1 from its shortest length
 * up, then the tail. The lemmas prove that this search finds a match exactly
 * when one exists, and that the one it finds is the first in that order.
 */
module Commands {
  import opened Wrappers
  import opened JsText

  datatype Verb = Send | Read

  function Keyword(v: Verb): string {
    match v
    case Send => "send"
    case Read => "read"
  }

  /** `^send` or `^read` under the `i` flag. */
  predicate HasKeyword(v: Verb, s: string) {
    StartsWithCI(s, Keyword(v))
  }

  /** How the part of the pattern after group 1 matched. */
  datatype Tail =
    | Group2(colons: nat, start: nat)  // `\s*::\s*` with "::" at `colons`, then group 2 from `start` to the end
    | NoGroup                          // read only: the optional group is skipped and `$` follows group 1

  /** The tail of the pattern for verb `v` matches `s[q..]` in the way `t` says. */
  ghost predicate TailOk(v: Verb, s: string, q: nat, t: Tail)
    requires q <= |s|
  {
    match t
    case NoGroup => v == Read && q == |s|
    case Group2(j, g) =>
      && q <= j && j + 2 <= g < |s|
      && AllWs(s, q, j) && s[j] == ':' && s[j + 1] == ':' && AllWs(s, j + 2, g)
      && (match v
          case Send => NoLineTerminator(s, g, |s|)
          case Read => AllDigits(s, g, |s|))
  }

  /**
   * The whole pattern for verb `v` matches `s` with `\s+` covering `s[4..p]`,
   * group 1 covering `s[p..q]` and the tail matching as `t` says.
   */
  ghost predicate Matches(v: Verb, s: string, p: nat, q: nat, t: Tail) {
    && HasKeyword(v, s)
    && 5 <= p < q <= |s|
    && AllWs(s, 4, p)
    && NoLineTerminator(s, p, q)
    && TailOk(v, s, q, t)
  }

  /** The match a backtracking engine reports: the longest `\s+`, then the shortest group 1. */
  ghost predicate FirstMatch(v: Verb, s: string, p: nat, q: nat, t: Tail) {
    && Matches(v, s, p, q, t)
    && (forall p': nat, q': nat, t' :: Matches(v, s, p', q', t') ==> p' <= p)
    && (forall q': nat, t' :: Matches(v, s, p, q', t') ==> q <= q')
  }

  /** Greedy `(.+)$`: group 2 is tried from `g` and backtracks one character at a time down to `lo`. */
  function GreedyToEnd(s: string, lo: nat, g: nat): (r: Option<nat>)
    requires lo <= g <= |s|
    ensures r.Some? ==> lo <= r.value <= g
    decreases g - lo
  {
    if g < |s| && NoLineTerminator(s, g, |s|) then Some(g)
    else if g == lo then None
    else GreedyToEnd(s, lo, g - 1)
  }

  lemma {:induction false} GreedyToEndCorrect(s: string, lo: nat, g: nat)
    requires lo <= g <= |s|
    ensures var r := GreedyToEnd(s, lo, g);
      && (r.Some? ==> r.value < |s| && NoLineTerminator(s, r.value, |s|))
      && (r.None? ==> forall g' :: lo <= g' <= g && g' < |s| ==> !NoLineTerminator(s, g', |s|))
    decreases g - lo
  {
    if !(g < |s| && NoLineTerminator(s, g, |s|)) && g != lo {
      GreedyToEndCorrect(s, lo, g - 1);
    }
  }

  /** `\s*::\s*` and group 2 at `q`: the two `\s*` are greedy and can only stop at the end of a run. */
  function GroupAt(v: Verb, s: string, q: nat): (r: Option<Tail>)
    requires q <= |s|
  {
    var j := q + WsRun(s, q);
    if j + 2 <= |s| && s[j] == ':' && s[j + 1] == ':' then
      var w := j + 2 + WsRun(s, j + 2);
      match v
      case Send =>
        (match GreedyToEnd(s, j + 2, w)
         case Some(g) => Some(Group2(j, g))
         case None => None)
      case Read =>
        if w < |s| && AllDigits(s, w, |s|) then Some(Group2(j, w)) else None
    else None
  }

  /** The tail at `q`: the group first; for `read`, where it is optional, then `$` alone. */
  function TailAt(v: Verb, s: string, q: nat): (r: Option<Tail>)
    requires q <= |s|
  {
    match GroupAt(v, s, q)
    case Some(t) => Some(t)
    case None => if v == Read && q == |s| then Some(NoGroup) else None
  }

  /** Any tail that matches has its "::" right after the white-space run at `q`. */
  lemma GroupPositionsForced(v: Verb, s: string, q: nat, j: nat, g: nat)
    requires q <= |s| && TailOk(v, s, q, Group2(j, g))
    ensures j == q + WsRun(s, q)
    ensures g <= j + 2 + WsRun(s, j + 2)
    ensures v == Read ==> g == j + 2 + WsRun(s, j + 2)
  {
    WsRunIsLongest(s, q, j);
    assert !IsWs(s[j]);
    WsRunIsLongest(s, j + 2, g);
    if v == Read {
      assert IsAsciiDigit(s[g]);
    }
  }

  lemma TailAtCorrect(v: Verb, s: string, q: nat)
    requires q <= |s|
    ensures TailAt(v, s, q).Some? ==> TailOk(v, s, q, TailAt(v, s, q).value)
    ensures TailAt(v, s, q).None? ==> forall t :: !TailOk(v, s, q, t)
  {
    TailAtSound(v, s, q);
    forall t | TailOk(v, s, q, t) ensures TailAt(v, s, q).Some? {
      TailAtComplete(v, s, q, t);
    }
  }

  lemma TailAtSound(v: Verb, s: string, q: nat)
    requires q <= |s|
    ensures TailAt(v, s, q).Some? ==> TailOk(v, s, q, TailAt(v, s, q).value)
  {
    var j := q + WsRun(s, q);
    if j + 2 <= |s| && s[j] == ':' && s[j + 1] == ':' && v == Send {
      var w := j + 2 + WsRun(s, j + 2);
      GreedyToEndCorrect(s, j + 2, w);
      var r := GreedyToEnd(s, j + 2, w);
      if r.Some? {
        assert AllWs(s, j + 2, r.value);
      }
    }
  }

  lemma TailAtComplete(v: Verb, s: string, q: nat, t: Tail)
    requires q <= |s| && TailOk(v, s, q, t)
    ensures TailAt(v, s, q).Some?
  {
    if t.Group2? {
      GroupPositionsForced(v, s, q, t.colons, t.start);
      if v == Send {
        GreedyToEndCorrect(s, t.colons + 2, t.colons + 2 + WsRun(s, t.colons + 2));
      }
    }
  }

  /** Lazy group 1 starting at `p`: tried with end `q`, then one character longer, never across a line terminator. */
  function LazyGroup1(v: Verb, s: string, p: nat, q: nat): (r: Option<(nat, Tail)>)
    requires p < q <= |s|
    decreases |s| - q
  {
    match TailAt(v, s, q)
    case Some(t) => Some((q, t))
    case None => if q < |s| && !IsLineTerminator(s[q]) then LazyGroup1(v, s, p, q + 1) else None
  }

  lemma {:induction false} LazyGroup1Correct(v: Verb, s: string, p: nat, q0: nat)
    requires p < q0 <= |s| && NoLineTerminator(s, p, q0)
    ensures var r := LazyGroup1(v, s, p, q0);
      && (r.Some? ==>
            && q0 <= r.value.0 <= |s| && NoLineTerminator(s, p, r.value.0)
            && TailOk(v, s, r.value.0, r.value.1)
            && forall q': nat, t' :: q0 <= q' < r.value.0 ==> !TailOk(v, s, q', t'))
      && (r.None? ==> forall q': nat, t' :: q0 <= q' <= |s| && NoLineTerminator(s, p, q') ==> !TailOk(v, s, q', t'))
    decreases |s| - q0
  {
    TailAtCorrect(v, s, q0);
    if TailAt(v, s, q0).None? {
      if q0 < |s| && !IsLineTerminator(s[q0]) {
        LazyGroup1Correct(v, s, p, q0 + 1);
      }
    }
  }

  /** Greedy `\s+` covering `s[4..4 + k]`, backtracking one character at a time down to length 1. */
  function GreedyWs(v: Verb, s: string, k: nat): (r: Option<(nat, nat, Tail)>)
    requires 1 <= k && 4 + k <= |s|
    decreases k
  {
    match LazyFrom(v, s, 4 + k)
    case Some((q, t)) => Some((4 + k, q, t))
    case None => if k == 1 then None else GreedyWs(v, s, k - 1)
  }

  /** The first group 1 the lazy search finds for `\s+` ending at `p`, if `s[p]` can start one. */
  function LazyFrom(v: Verb, s: string, p: nat): Option<(nat, Tail)>
    requires p <= |s|
  {
    if p < |s| && !IsLineTerminator(s[p]) then LazyGroup1(v, s, p, p + 1) else None
  }

  /** With `\s+` ending at `p`, the lazy search finds the match with the shortest group 1, or none exists. */
  lemma LazyFromCorrect(v: Verb, s: string, p: nat)
    requires HasKeyword(v, s) && 5 <= p <= |s| && AllWs(s, 4, p)
    ensures var r := LazyFrom(v, s, p);
      && (r.Some? ==> Matches(v, s, p, r.value.0, r.value.1)
                      && forall q': nat, t' :: Matches(v, s, p, q', t') ==> r.value.0 <= q')
      && (r.None? ==> forall q': nat, t' :: !Matches(v, s, p, q', t'))
  {
    if p < |s| && !IsLineTerminator(s[p]) {
      LazyGroup1Correct(v, s, p, p + 1);
    }
  }

  lemma GreedyWsCorrect(v: Verb, s: string, k: nat)
    requires HasKeyword(v, s) && 1 <= k && 4 + k <= |s| && AllWs(s, 4, 4 + k)
    ensures var r := GreedyWs(v, s, k);
      && (r.Some? ==>
            && Matches(v, s, r.value.0, r.value.1, r.value.2) && r.value.0 <= 4 + k
            && (forall p': nat, q': nat, t' :: r.value.0 < p' <= 4 + k ==> !Matches(v, s, p', q', t'))
            && (forall q': nat, t' :: Matches(v, s, r.value.0, q', t') ==> r.value.1 <= q'))
      && (r.None? ==> forall p': nat, q': nat, t' :: p' <= 4 + k ==> !Matches(v, s, p', q', t'))
  {
    GreedyWsSound(v, s, k);
    GreedyWsLongest(v, s, k);
  }

  /** What the search at `k` reports is a match with the shortest group 1 for its `\s+`. */
  lemma {:induction false} GreedyWsSound(v: Verb, s: string, k: nat)
    requires HasKeyword(v, s) && 1 <= k && 4 + k <= |s| && AllWs(s, 4, 4 + k)
    ensures var r := GreedyWs(v, s, k);
      r.Some? ==>
        && Matches(v, s, r.value.0, r.value.1, r.value.2) && r.value.0 <= 4 + k
        && (forall q': nat, t' :: Matches(v, s, r.value.0, q', t') ==> r.value.1 <= q')
    decreases k
  {
    LazyFromCorrect(v, s, 4 + k);
    if LazyFrom(v, s, 4 + k).None? && k != 1 {
      assert GreedyWs(v, s, k) == GreedyWs(v, s, k - 1);
      GreedyWsSound(v, s, k - 1);
    }
  }

  /** No match has a longer `\s+` than the one the search at `k` reports, and none at all when it reports none. */
  lemma {:induction false} GreedyWsLongest(v: Verb, s: string, k: nat)
    requires HasKeyword(v, s) && 1 <= k && 4 + k <= |s| && AllWs(s, 4, 4 + k)
    ensures var r := GreedyWs(v, s, k);
      && (r.Some? ==> forall p': nat, q': nat, t' :: r.value.0 < p' <= 4 + k ==> !Matches(v, s, p', q', t'))
      && (r.None? ==> forall p': nat, q': nat, t' :: p' <= 4 + k ==> !Matches(v, s, p', q', t'))
    decreases k
  {
    LazyFromCorrect(v, s, 4 + k);
    if LazyFrom(v, s, 4 + k).None? && k != 1 {
      assert GreedyWs(v, s, k) == GreedyWs(v, s, k - 1);
      GreedyWsLongest(v, s, k - 1);
    }
  }

  /** The whole search: keyword, then `\s+` from its longest possible length. */
  function Search(v: Verb, s: string): (r: Option<(nat, nat, Tail)>) {
    if HasKeyword(v, s) && WsRun(s, 4) >= 1 then GreedyWs(v, s, WsRun(s, 4)) else None
  }

  /** The search finds a match exactly when one exists, and what it finds is the first match. */
  lemma SearchCorrect(v: Verb, s: string)
    ensures Search(v, s).Some? <==> exists p: nat, q: nat, t :: Matches(v, s, p, q, t)
    ensures Search(v, s).Some? ==> FirstMatch(v, s, Search(v, s).value.0, Search(v, s).value.1, Search(v, s).value.2)
  {
    if HasKeyword(v, s) {
      forall p: nat, q: nat, t | Matches(v, s, p, q, t) ensures p <= 4 + WsRun(s, 4) {
        WsRunIsLongest(s, 4, p);
      }
      if WsRun(s, 4) >= 1 {
        GreedyWsCorrect(v, s, WsRun(s, 4));
        var r := Search(v, s);
        if r.Some? {
          assert Matches(v, s, r.value.0, r.value.1, r.value.2);
        }
      }
    }
  }

  /** The positions the search reports lie inside the text. */
  lemma SearchInBounds(v: Verb, s: string)
    ensures Search(v, s).Some? ==>
      var (p, q, t) := Search(v, s).value;
      && p <= q <= |s| && (t.Group2? ==> t.start <= |s|)
      && (v == Read && t.Group2? ==> forall k :: 0 <= k < |s[t.start..]| ==> IsAsciiDigit(s[t.start..][k]))
  {
    SearchCorrect(v, s);
    if Search(v, s).Some? {
      var (p, q, t) := Search(v, s).value;
      assert TailOk(v, s, q, t);
      if t.Group2? {
        assert forall k :: 0 <= k < |s[t.start..]| ==> s[t.start..][k] == s[t.start + k];
      }
    }
  }

  datatype SendInstruction = SendInstruction(conversation: string, message: string)

  datatype ReadInstruction = ReadInstruction(conversation: string, limit: nat)

  /** The limit a read command gets when it names none. */
  const DefaultReadLimit: nat := 5

  /** `parseSendInstruction`: both groups of the first match, trimmed. */
  function ParseSend(text: string): Option<SendInstruction> {
    if text == "" then None
    else
      var r := Search(Send, text);
      SearchInBounds(Send, text);
      match r
      case Some((p, q, Group2(_, g))) => Some(SendInstruction(Trim(text[p..q]), Trim(text[g..])))
      case _ => None
  }

  /** `parseReadInstruction`: group 1 trimmed, and the digits of group 2 or the default limit. */
  function ParseRead(text: string): Option<ReadInstruction> {
    if text == "" then None
    else
      var r := Search(Read, text);
      SearchInBounds(Read, text);
      match r
      case Some((p, q, Group2(_, g))) => Some(ReadInstruction(Trim(text[p..q]), DigitsValue(text[g..])))
      case Some((p, q, NoGroup)) => Some(ReadInstruction(Trim(text[p..q]), DefaultReadLimit))
      case None => None
  }

  /**
   * A send command parses exactly when the text has the form keyword, white
   * space, conversation, "::", message; the conversation is the trimmed text
   * between the keyword and the "::" of the first match, the message the
   * trimmed text after it.
   */
  lemma ParseSendSpec(text: string)
    ensures ParseSend(text).Some? <==> exists p: nat, q: nat, t :: Matches(Send, text, p, q, t)
    ensures ParseSend(text).Some? ==> exists p: nat, q: nat, j: nat, g: nat ::
      && FirstMatch(Send, text, p, q, Group2(j, g))
      && ParseSend(text).value.conversation == Trim(text[p..q]) == Trim(text[4..j])
      && ParseSend(text).value.message == Trim(text[g..]) == Trim(text[j + 2..])
  {
    SearchCorrect(Send, text);
    if ParseSend(text).Some? {
      var (p, q, t) := Search(Send, text).value;
      assert TailOk(Send, text, q, t);
      SendGroupsTrim(text, p, q, t.colons, t.start);
    }
  }

  /** Group 1 and group 2 trim like the whole text around the "::". */
  lemma SendGroupsTrim(text: string, p: nat, q: nat, j: nat, g: nat)
    requires 4 <= p <= q <= j && j + 2 <= g <= |text|
    requires AllWs(text, 4, p) && AllWs(text, q, j) && AllWs(text, j + 2, g)
    ensures Trim(text[p..q]) == Trim(text[4..j]) && Trim(text[g..]) == Trim(text[j + 2..])
  {
    TrimOfWsPaddedSlice(text, 4, p, q, j);
    TrimOfWsPrefixedSuffix(text, j + 2, g);
  }

  /**
   * A read command parses exactly when the text has the form keyword, white
   * space, conversation, optionally followed by "::" and digits; the limit is
   * the value of those digits when the first match has them, and 5 otherwise,
   * in which case the conversation is all the text after the keyword.
   */
  lemma ParseReadSpec(text: string)
    ensures ParseRead(text).Some? <==> exists p: nat, q: nat, t :: Matches(Read, text, p, q, t)
    ensures ParseRead(text).Some? ==> exists p: nat, q: nat, t ::
      && FirstMatch(Read, text, p, q, t)
      && ParseRead(text).value.conversation == Trim(text[p..q])
      && (t.NoGroup? ==>
            ParseRead(text).value.limit == DefaultReadLimit && ParseRead(text).value.conversation == Trim(text[4..]))
      && (t.Group2? ==>
            && ParseRead(text).value.limit == DigitsValue(text[t.start..])
            && ParseRead(text).value.conversation == Trim(text[4..t.colons]))
  {
    SearchCorrect(Read, text);
    var r := Search(Read, text);
    if text != "" && r.Some? {
      var (p, q, t) := r.value;
      assert TailOk(Read, text, q, t);
      assert FirstMatch(Read, text, p, q, t);
      if t.Group2? {
        TrimOfWsPaddedSlice(text, 4, p, q, t.colons);
        assert ParseRead(text) == Some(ReadInstruction(Trim(text[p..q]), DigitsValue(text[t.start..])));
      } else {
        TrimOfWsPrefixedSuffix(text, 4, p);
        assert text[p..q] == text[p..];
        assert ParseRead(text) == Some(ReadInstruction(Trim(text[p..q]), DefaultReadLimit));
      }
    }
  }

  /** Any single line of the form keyword, white space, something parses as a read command. */
  lemma ReadAcceptsSingleLine(text: string)
    requires HasKeyword(Read, text) && |text| > 5 && IsWs(text[4])
    requires NoLineTerminator(text, 5, |text|)
    ensures ParseRead(text).Some?
  {
    assert Matches(Read, text, 5, |text|, NoGroup);
    ParseReadSpec(text);
  }

  /** A single line with a "::" that has text on both sides parses as a send command. */
  lemma SendAcceptsSeparatedLine(text: string, j: nat)
    requires 5 < j && j + 2 < |text| && text[j] == ':' && text[j + 1] == ':'
    requires HasKeyword(Send, text) && IsWs(text[4])
    requires NoLineTerminator(text, 5, |text|)
    ensures ParseSend(text).Some?
  {
    assert Matches(Send, text, 5, j, Group2(j, j + 2));
    ParseSendSpec(text);
  }

  /** `s[i..]` is white space followed by one or more digits up to the end. */
  predicate WsThenDigits(s: string, i: nat)
    requires i <= |s|
  {
    exists g: nat :: i <= g < |s| && AllWs(s, i, g) && AllDigits(s, g, |s|)
  }

  /**
   * For a single-line send command whose conversation part is not blank,
   * the conversation is the trimmed text before the first "::" and the
   * message the trimmed text after it.
   */
  lemma SendSplitsAtFirstSeparator(text: string, j: nat)
    requires |text| > 5 && HasKeyword(Send, text) && IsWs(text[4])
    requires NoLineTerminator(text, 5, |text|)
    requires 5 <= j && j + 2 <= |text| && text[j] == ':' && text[j + 1] == ':'
    requires forall k :: 5 <= k < j ==> !(text[k] == ':' && text[k + 1] == ':')
    requires exists k :: 5 <= k < j && !IsWs(text[k])
    requires exists k :: j + 2 <= k < |text| && !IsWs(text[k])
    ensures ParseSend(text) == Some(SendInstruction(Trim(text[4..j]), Trim(text[j + 2..])))
  {
    var g0 := j + 2 + WsRun(text, j + 2);
    SendWitness(text, j);
    SearchCorrect(Send, text);
    var (p, q, t) := Search(Send, text).value;
    assert TailOk(Send, text, q, t);
    SeparatorForced(Send, text, j, g0, p, q, t.colons, t.start);
    SendGroupsTrim(text, p, q, j, t.start);
  }

  lemma SendWitness(text: string, j: nat)
    requires |text| > 5 && HasKeyword(Send, text) && IsWs(text[4])
    requires NoLineTerminator(text, 5, |text|)
    requires 5 <= j && j + 2 <= |text| && text[j] == ':' && text[j + 1] == ':'
    requires exists k :: 5 <= k < j && !IsWs(text[k])
    requires exists k :: j + 2 <= k < |text| && !IsWs(text[k])
    ensures Matches(Send, text, 4 + WsRun(text, 4), j, Group2(j, j + 2 + WsRun(text, j + 2)))
  {
    var k :| 5 <= k < j && !IsWs(text[k]);
    assert 4 + WsRun(text, 4) <= k;
    var m :| j + 2 <= m < |text| && !IsWs(text[m]);
    assert j + 2 + WsRun(text, j + 2) <= m;
  }

  /**
   * A first match whose group 1 is no longer than the one ending at the
   * "::" at `j` uses that "::", provided no "::" comes before it (for send)
   * or the text after it is the digits of the limit (for read).
   */
  lemma SeparatorForced(v: Verb, text: string, j: nat, g0: nat, p: nat, q: nat, jm: nat, g: nat)
    requires 4 <= |text|
    requires Matches(v, text, 4 + WsRun(text, 4), j, Group2(j, g0))
    requires FirstMatch(v, text, p, q, Group2(jm, g))
    requires v == Send ==> forall k :: 5 <= k < j ==> !(text[k] == ':' && text[k + 1] == ':')
    ensures jm == j
  {
    WsRunIsLongest(text, 4, p);
    assert q <= j;
    assert !IsAsciiDigit(text[j]) && !IsWs(text[j]);
  }

  /**
   * A single-line read command that ends in "::", white space and digits,
   * with a conversation part that is not blank, takes its limit from those
   * digits and the trimmed text before that "::" as the conversation.
   */
  lemma ReadSplitsAtLimit(text: string, j: nat)
    requires |text| > 5 && HasKeyword(Read, text) && IsWs(text[4])
    requires NoLineTerminator(text, 5, |text|)
    requires 5 <= j && j + 2 <= |text| && text[j] == ':' && text[j + 1] == ':' && WsThenDigits(text, j + 2)
    requires exists k :: 5 <= k < j && !IsWs(text[k])
    ensures ParseRead(text) == Some(ReadInstruction(Trim(text[4..j]), DigitsValue(text[j + 2 + WsRun(text, j + 2)..])))
  {
    var g0 := ReadWitness(text, j);
    ReadSearchUses(text, j, g0);
  }

  /** The search finds the match whose "::" is at `j`. */
  lemma ReadSearchUses(text: string, j: nat, g0: nat)
    requires 4 <= |text| && j + 2 <= |text|
    requires g0 == j + 2 + WsRun(text, j + 2)
    requires Matches(Read, text, 4 + WsRun(text, 4), j, Group2(j, g0))
    ensures AllDigits(text, g0, |text|)
    ensures ParseRead(text) == Some(ReadInstruction(Trim(text[4..j]), DigitsValue(text[g0..])))
  {
    SearchCorrect(Read, text);
    var r := Search(Read, text).value;
    ReadTailForced(text, j, g0, r.0, r.1, r.2);
    assert TailOk(Read, text, r.1, r.2);
    TrimOfWsPaddedSlice(text, 4, r.0, r.1, j);
  }

  /** The match whose "::" is at `j`; `g0` is where the digits of the limit start. */
  lemma ReadWitness(text: string, j: nat) returns (g0: nat)
    requires |text| > 5 && HasKeyword(Read, text) && IsWs(text[4])
    requires NoLineTerminator(text, 5, |text|)
    requires 5 <= j && j + 2 <= |text| && text[j] == ':' && text[j + 1] == ':' && WsThenDigits(text, j + 2)
    requires exists k :: 5 <= k < j && !IsWs(text[k])
    ensures g0 == j + 2 + WsRun(text, j + 2)
    ensures Matches(Read, text, 4 + WsRun(text, 4), j, Group2(j, g0))
  {
    var k :| 5 <= k < j && !IsWs(text[k]);
    assert 4 + WsRun(text, 4) <= k;
    var g: nat :| j + 2 <= g < |text| && AllWs(text, j + 2, g) && AllDigits(text, g, |text|);
    WsRunIsLongest(text, j + 2, g);
    g0 := j + 2 + WsRun(text, j + 2);
    assert !IsWs(text[g]);
    assert g0 == g;
  }

  /** A first match of a read command that has such a limit uses it, with the "::" at `j`. */
  lemma ReadTailForced(text: string, j: nat, g0: nat, p: nat, q: nat, t: Tail)
    requires 4 <= |text| && j + 2 <= |text|
    requires g0 == j + 2 + WsRun(text, j + 2)
    requires Matches(Read, text, 4 + WsRun(text, 4), j, Group2(j, g0))
    requires FirstMatch(Read, text, p, q, t)
    ensures t == Group2(j, g0)
  {
    assert q <= j;
    assert TailOk(Read, text, q, t);
    SeparatorForced(Read, text, j, g0, p, q, t.colons, t.start);
    WsRunIsLongest(text, j + 2, t.start);
    assert !IsWs(text[t.start]);
  }

  /**
   * A single-line read command with no "::", white space and digits at its
   * end takes the whole remainder as the conversation and the default limit.
   */
  lemma ReadWithoutLimit(text: string)
    requires |text| > 5 && HasKeyword(Read, text) && IsWs(text[4])
    requires NoLineTerminator(text, 5, |text|)
    requires exists k :: 5 <= k < |text| && !IsWs(text[k])
    requires forall j :: 5 <= j && j + 2 <= |text| && text[j] == ':' && text[j + 1] == ':' ==> !WsThenDigits(text, j + 2)
    ensures ParseRead(text) == Some(ReadInstruction(Trim(text[4..]), DefaultReadLimit))
  {
    var p0 := 4 + WsRun(text, 4);
    var k :| 5 <= k < |text| && !IsWs(text[k]);
    assert p0 <= k;
    assert Matches(Read, text, p0, |text|, NoGroup);
    ReadSearchDefault(text, p0);
  }

  /** With a match and no "::", white space and digits at the end, the search skips the optional group. */
  lemma ReadSearchDefault(text: string, p0: nat)
    requires Matches(Read, text, p0, |text|, NoGroup)
    requires forall j :: 5 <= j && j + 2 <= |text| && text[j] == ':' && text[j + 1] == ':' ==> !WsThenDigits(text, j + 2)
    ensures ParseRead(text) == Some(ReadInstruction(Trim(text[4..]), DefaultReadLimit))
  {
    SearchCorrect(Read, text);
    var r := Search(Read, text).value;
    ReadTailDigits(text, r.0, r.1, r.2);
    TrimOfWsPrefixedSuffix(text, 4, r.0);
    assert text[r.0..r.1] == text[r.0..];
  }

  /** A read tail with the optional group ends in "::", white space and digits. */
  lemma ReadTailDigits(text: string, p: nat, q: nat, t: Tail)
    requires Matches(Read, text, p, q, t)
    ensures t.Group2? ==> 5 <= t.colons && t.colons + 2 <= |text| && WsThenDigits(text, t.colons + 2)
    ensures t.NoGroup? ==> q == |text|
    ensures AllWs(text, 4, p)
  {
  }

  /** The identity a conversation reference resolves to: a display name or a numeric id. */
  datatype ConversationTarget = ConversationTarget(name: Option<string>, id: Option<string>)

  /** `/^\d{6,}$/`: the WHOLE string is six or more ASCII digits. */
  predicate IsNumericId(v: string) {
    |v| >= 6 && AllDigits(v, 0, |v|)
  }

  /** `resolveConversationTarget`. */
  function ResolveConversationTarget(value: Option<string>): (t: ConversationTarget)
    ensures (value.None? || value == Some("")) ==> t.name.None? && t.id.None?
    ensures value.Some? && value.value != "" ==> t.name.Some? != t.id.Some?
    ensures t.id.Some? <==> value.Some? && IsNumericId(value.value)
    ensures t.id.Some? ==> t.id == value
    ensures t.name.Some? ==> t.name == value
  {
    if value.None? || value.value == "" then ConversationTarget(None, None)
    else if IsNumericId(value.value) then ConversationTarget(None, value)
    else ConversationTarget(value, None)
  }
}
