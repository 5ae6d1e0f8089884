/**
 * What `readMessages` does with the rows it finds on the page, once the
 * page itself is abstracted to a list of rows: pick each row's sender, turn
 * its texts into messages, fill missing senders backwards from the nearest
 * later message, fall back to the legacy text elements, keep the last
 * `lim` entries, then de-duplicate and filter.
 */
module Reader {
  import opened Wrappers
  import opened JsText
  import opened Messages

  /**
   * One `div[role="row"]` as far as the extraction sees it: the `alt` of its
   * first avatar image (if any), the text of its heading element (if any),
   * and the raw text of each of its text elements.
   */
  datatype Row = Row(avatarAlt: Option<string>, heading: Option<string>, texts: seq<string>)

  /** `/wys[łl]ano/i`: the "sent" marker Messenger shows under one's own messages. */
  predicate HasSentMarker(t: string) {
    ContainsCI(t, "wysłano") || ContainsCI(t, "wyslano")
  }

  /** `pickSender`: the trimmed avatar text, else the trimmed heading ("me" for an own message). */
  function PickSender(row: Row): (r: Option<string>)
    ensures r.Some? ==> r.value != "" && Trim(r.value) == r.value
    ensures Truthy(row.avatarAlt) && Trim(row.avatarAlt.value) != "" ==> r == Some(Trim(row.avatarAlt.value))
    ensures !(Truthy(row.avatarAlt) && Trim(row.avatarAlt.value) != "") ==>
      (r.None? <==> row.heading.None? || Trim(row.heading.value) == "")
    ensures !(Truthy(row.avatarAlt) && Trim(row.avatarAlt.value) != "") && r.Some? ==>
      r == (if HasSentMarker(Trim(row.heading.value)) then Some("me") else Some(Trim(row.heading.value)))
  {
    if Truthy(row.avatarAlt) && Trim(row.avatarAlt.value) != "" then
      TrimIdempotent(row.avatarAlt.value);
      Some(Trim(row.avatarAlt.value))
    else if row.heading.None? then None
    else
      var raw := Trim(row.heading.value);
      TrimIdempotent(row.heading.value);
      if raw == "" then None
      else if HasSentMarker(raw) then
        TrimOfUnpadded("me");
        Some("me")
      else Some(raw)
  }

  /** The per-text condition: non-empty, not the sender's name, no "sent" marker. */
  predicate Passes(sender: Option<string>, t: string) {
    t != "" && (sender.None? || t != sender.value) && !HasSentMarker(t)
  }

  /** The messages one row contributes, given its sender and raw texts. */
  function RowMessages(sender: Option<string>, texts: seq<string>): seq<Message> {
    if texts == [] then []
    else
      var rest := RowMessages(sender, texts[..|texts| - 1]);
      var t := Trim(texts[|texts| - 1]);
      if Passes(sender, t) then rest + [Message(sender, t)] else rest
  }

  /**
   * Every row message carries the row's sender and a trimmed text that
   * passes, and every passing text gives one; a single text gives exactly one
   * message when it passes and none otherwise, and with RowMessagesAppend this
   * fixes the count and the order.
   */
  lemma RowMessagesSpec(sender: Option<string>, texts: seq<string>)
    ensures forall t :: RowMessages(sender, [t]) == (if Passes(sender, Trim(t)) then [Message(sender, Trim(t))] else [])
    ensures |RowMessages(sender, texts)| <= |texts|
    ensures forall m :: m in RowMessages(sender, texts) ==>
      m.sender == sender && Passes(sender, m.text) && exists k :: 0 <= k < |texts| && Trim(texts[k]) == m.text
    ensures forall k :: 0 <= k < |texts| && Passes(sender, Trim(texts[k])) ==>
      Message(sender, Trim(texts[k])) in RowMessages(sender, texts)
  {
    RowMessagesSound(sender, texts);
    RowMessagesComplete(sender, texts);
  }

  /** The texts are handled one after another: one push per passing text, in text order. */
  lemma {:induction false} RowMessagesAppend(sender: Option<string>, a: seq<string>, b: seq<string>)
    ensures RowMessages(sender, a + b) == RowMessages(sender, a) + RowMessages(sender, b)
    decreases |b|
  {
    if b == [] {
      assert a + b == a;
    } else {
      var init := b[..|b| - 1];
      assert (a + b)[..|a + b| - 1] == a + init;
      assert (a + b)[|a + b| - 1] == b[|b| - 1];
      RowMessagesAppend(sender, a, init);
    }
  }

  lemma {:induction false} RowMessagesSound(sender: Option<string>, texts: seq<string>)
    ensures |RowMessages(sender, texts)| <= |texts|
    ensures forall m :: m in RowMessages(sender, texts) ==>
      m.sender == sender && Passes(sender, m.text) && exists k :: 0 <= k < |texts| && Trim(texts[k]) == m.text
  {
    if texts != [] {
      var init := texts[..|texts| - 1];
      RowMessagesSound(sender, init);
      assert forall k :: 0 <= k < |init| ==> init[k] == texts[k];
    }
  }

  lemma {:induction false} RowMessagesComplete(sender: Option<string>, texts: seq<string>)
    ensures forall k :: 0 <= k < |texts| && Passes(sender, Trim(texts[k])) ==>
      Message(sender, Trim(texts[k])) in RowMessages(sender, texts)
  {
    if texts != [] {
      var init := texts[..|texts| - 1];
      RowMessagesComplete(sender, init);
      assert forall k :: 0 <= k < |init| ==> init[k] == texts[k];
    }
  }

  /** The messages of all rows, in row order. */
  function Collected(rows: seq<Row>): seq<Message> {
    if rows == [] then []
    else
      var last := rows[|rows| - 1];
      Collected(rows[..|rows| - 1]) + RowMessages(PickSender(last), last.texts)
  }

  /**
   * A collected message comes from one row, with that row's sender; a single
   * row gives its own messages, and with CollectedAppend the rows' messages
   * are concatenated in row order.
   */
  lemma {:induction false} CollectedSpec(rows: seq<Row>)
    ensures forall r :: Collected([r]) == RowMessages(PickSender(r), r.texts)
    ensures forall m :: m in Collected(rows) ==>
      exists i :: 0 <= i < |rows| && m in RowMessages(PickSender(rows[i]), rows[i].texts)
    ensures forall i, m :: 0 <= i < |rows| && m in RowMessages(PickSender(rows[i]), rows[i].texts) ==>
      m in Collected(rows)
  {
    if rows != [] {
      var init := rows[..|rows| - 1];
      CollectedSpec(init);
      assert forall i :: 0 <= i < |init| ==> init[i] == rows[i];
    }
  }

  /** The rows are handled one after another, each appending its messages. */
  lemma {:induction false} CollectedAppend(a: seq<Row>, b: seq<Row>)
    ensures Collected(a + b) == Collected(a) + Collected(b)
    decreases |b|
  {
    if b == [] {
      assert a + b == a;
    } else {
      var init := b[..|b| - 1];
      assert (a + b)[..|a + b| - 1] == a + init;
      assert (a + b)[|a + b| - 1] == b[|b| - 1];
      CollectedAppend(a, init);
    }
  }

  /** The `forEach` over the rows, pushing each row's messages. */
  method CollectRows(rows: seq<Row>) returns (collected: seq<Message>)
    ensures collected == Collected(rows)
  {
    collected := [];
    var i := 0;
    while i < |rows|
      invariant 0 <= i <= |rows|
      invariant collected == Collected(rows[..i])
    {
      var sender := PickSender(rows[i]);
      var j := 0;
      while j < |rows[i].texts|
        invariant 0 <= j <= |rows[i].texts|
        invariant collected == Collected(rows[..i]) + RowMessages(sender, rows[i].texts[..j])
      {
        var t := Trim(rows[i].texts[j]);
        assert rows[i].texts[..j + 1][..j] == rows[i].texts[..j];
        if Passes(sender, t) {
          collected := collected + [Message(sender, t)];
        }
        j := j + 1;
      }
      assert rows[i].texts[..j] == rows[i].texts;
      assert rows[..i + 1][..i] == rows[..i];
      i := i + 1;
    }
    assert rows[..i] == rows;
  }

  // ---------------------------------------------------------------------
  // Backward sender fill-in

  /** The first truthy sender in `ms`, if any. */
  function NearestSender(ms: seq<Message>): (r: Option<string>)
    ensures r.Some? ==> Truthy(r)
  {
    if ms == [] then None
    else if Truthy(ms[0].sender) then ms[0].sender
    else NearestSender(ms[1..])
  }

  /** `NearestSender` names the sender of the earliest message that has one, and is absent only when none has. */
  lemma {:induction false} NearestSenderSpec(ms: seq<Message>)
    ensures NearestSender(ms).None? <==> forall j :: 0 <= j < |ms| ==> !Truthy(ms[j].sender)
    ensures NearestSender(ms).Some? ==>
      exists j :: 0 <= j < |ms| && ms[j].sender == NearestSender(ms) && forall k :: 0 <= k < j ==> !Truthy(ms[k].sender)
  {
    if ms != [] && !Truthy(ms[0].sender) {
      NearestSenderSpec(ms[1..]);
      assert forall j :: 0 < j < |ms| ==> ms[j] == ms[1..][j - 1];
      if NearestSender(ms).Some? {
        var j :| 0 <= j < |ms| - 1 && ms[1..][j].sender == NearestSender(ms)
          && forall k :: 0 <= k < j ==> !Truthy(ms[1..][k].sender);
        assert ms[j + 1].sender == NearestSender(ms);
      }
    }
  }

  /** The message at `i` after the fill-in. */
  function Filled(ms: seq<Message>, i: nat): Message
    requires i < |ms|
  {
    if Truthy(ms[i].sender) then ms[i]
    else
      var n := NearestSender(ms[i + 1..]);
      if Truthy(n) then ms[i].(sender := n) else ms[i]
  }

  function Backfill(ms: seq<Message>): seq<Message> {
    seq(|ms|, i requires 0 <= i < |ms| => Filled(ms, i))
  }

  /** The loop from the end that copies the last known sender into sender-less messages. */
  method FillSenders(a: array<Message>)
    modifies a
    ensures a[..] == Backfill(old(a[..]))
  {
    ghost var orig := a[..];
    var lastKnown: Option<string> := None;
    var i := a.Length;
    while i > 0
      invariant 0 <= i <= a.Length
      invariant forall k :: 0 <= k < i ==> a[k] == orig[k]
      invariant forall k :: i <= k < a.Length ==> a[k] == Filled(orig, k)
      invariant lastKnown == NearestSender(orig[i..])
    {
      i := i - 1;
      assert orig[i..][1..] == orig[i + 1..];
      if Truthy(a[i].sender) {
        lastKnown := a[i].sender;
        continue;
      }
      if Truthy(lastKnown) {
        a[i] := a[i].(sender := lastKnown);
      }
    }
  }

  /**
   * The fill-in keeps the length, every text and every sender already set;
   * a filled sender is the sender of the nearest later message that has one,
   * and every sender in the result occurs at that position or later.
   */
  lemma BackfillSpec(ms: seq<Message>)
    ensures |Backfill(ms)| == |ms|
    ensures forall i :: 0 <= i < |ms| ==> Backfill(ms)[i].text == ms[i].text
    ensures forall i :: 0 <= i < |ms| && Truthy(ms[i].sender) ==> Backfill(ms)[i] == ms[i]
    ensures forall i :: 0 <= i < |ms| && !Truthy(ms[i].sender) ==>
      (forall j :: i < j < |ms| ==> !Truthy(ms[j].sender)) ==> Backfill(ms)[i] == ms[i]
    ensures forall i :: 0 <= i < |ms| && Truthy(Backfill(ms)[i].sender) ==>
      exists j :: i <= j < |ms| && ms[j].sender == Backfill(ms)[i].sender
        && forall k :: i <= k < j ==> !Truthy(ms[k].sender)
  {
    forall i | 0 <= i < |ms|
      ensures !Truthy(ms[i].sender) && (forall j :: i < j < |ms| ==> !Truthy(ms[j].sender)) ==>
        Backfill(ms)[i] == ms[i]
      ensures Truthy(Backfill(ms)[i].sender) ==>
        exists j :: i <= j < |ms| && ms[j].sender == Backfill(ms)[i].sender
          && forall k :: i <= k < j ==> !Truthy(ms[k].sender)
    {
      var rest := ms[i + 1..];
      NearestSenderSpec(rest);
      assert forall j :: 0 <= j < |rest| ==> rest[j] == ms[i + 1 + j];
      if !Truthy(ms[i].sender) && Truthy(Backfill(ms)[i].sender) {
        var j :| 0 <= j < |rest| && rest[j].sender == NearestSender(rest)
          && forall k :: 0 <= k < j ==> !Truthy(rest[k].sender);
        assert ms[i + 1 + j].sender == Backfill(ms)[i].sender;
        assert forall k :: i < k < i + 1 + j ==> ms[k] == rest[k - i - 1];
      }
    }
  }

  /** A message left without a sender has no later message with one. */
  lemma UnfilledHasNoLaterSender(ms: seq<Message>, i: nat)
    requires i < |ms| && !Truthy(Filled(ms, i).sender)
    ensures forall j :: i < j < |ms| ==> !Truthy(ms[j].sender)
  {
    var rest := ms[i + 1..];
    NearestSenderSpec(rest);
    assert forall j :: i < j < |ms| ==> ms[j] == rest[j - i - 1];
  }

  /** Filling twice changes nothing more. */
  lemma BackfillIdempotent(ms: seq<Message>)
    ensures Backfill(Backfill(ms)) == Backfill(ms)
  {
    var b := Backfill(ms);
    BackfillSpec(ms);
    forall i | 0 <= i < |b|
      ensures Filled(b, i) == b[i]
    {
      if !Truthy(b[i].sender) {
        UnfilledHasNoLaterSender(ms, i);
        var rest := b[i + 1..];
        assert forall j :: i < j < |b| ==> rest[j - i - 1] == b[j];
        NearestSenderSpec(rest);
      }
    }
  }

  // ---------------------------------------------------------------------
  // Legacy fallback and truncation

  /** The legacy text elements' messages: trimmed, non-empty, without a sender. */
  function LegacyMessages(texts: seq<string>): seq<Message> {
    if texts == [] then []
    else
      var rest := LegacyMessages(texts[..|texts| - 1]);
      var t := Trim(texts[|texts| - 1]);
      if t != "" then rest + [Message(None, t)] else rest
  }

  /** The fallback applies only when no row produced a message. */
  function WithLegacy(collected: seq<Message>, legacyTexts: seq<string>): seq<Message> {
    if |collected| == 0 then LegacyMessages(legacyTexts) else collected
  }

  /**
   * Legacy messages have no sender and a non-empty trimmed text of some
   * element, and every non-blank element gives one; a single element gives
   * exactly one message when it is not blank, and with LegacyMessagesAppend
   * this fixes the count and the order.
   */
  lemma LegacyMessagesSpec(texts: seq<string>)
    ensures forall t :: LegacyMessages([t]) == (if Trim(t) != "" then [Message(None, Trim(t))] else [])
    ensures |LegacyMessages(texts)| <= |texts|
    ensures forall m :: m in LegacyMessages(texts) ==>
      m.sender.None? && m.text != "" && exists k :: 0 <= k < |texts| && Trim(texts[k]) == m.text
    ensures forall k :: 0 <= k < |texts| && Trim(texts[k]) != "" ==> Message(None, Trim(texts[k])) in LegacyMessages(texts)
  {
    LegacyMessagesMembers(texts);
  }

  lemma {:induction false} LegacyMessagesMembers(texts: seq<string>)
    ensures |LegacyMessages(texts)| <= |texts|
    ensures forall m :: m in LegacyMessages(texts) ==>
      m.sender.None? && m.text != "" && exists k :: 0 <= k < |texts| && Trim(texts[k]) == m.text
    ensures forall k :: 0 <= k < |texts| && Trim(texts[k]) != "" ==> Message(None, Trim(texts[k])) in LegacyMessages(texts)
  {
    if texts != [] {
      var init := texts[..|texts| - 1];
      LegacyMessagesMembers(init);
      assert forall k :: 0 <= k < |init| ==> init[k] == texts[k];
    }
  }

  /** The legacy elements are handled one after another, in document order. */
  lemma {:induction false} LegacyMessagesAppend(a: seq<string>, b: seq<string>)
    ensures LegacyMessages(a + b) == LegacyMessages(a) + LegacyMessages(b)
    decreases |b|
  {
    if b == [] {
      assert a + b == a;
    } else {
      var init := b[..|b| - 1];
      assert (a + b)[..|a + b| - 1] == a + init;
      assert (a + b)[|a + b| - 1] == b[|b| - 1];
      LegacyMessagesAppend(a, init);
    }
  }

  /** `ms.slice(-lim)`: a negative start counts from the end, and `-0` is `0`. */
  function SliceLast<T>(ms: seq<T>, lim: int): seq<T> {
    var start := -lim;
    var from := if start < 0 then (if |ms| + start < 0 then 0 else |ms| + start)
                else (if start < |ms| then start else |ms|);
    ms[from..]
  }

  /** A positive limit keeps the last `lim` entries, zero keeps all, a negative one drops the first `-lim`. */
  lemma SliceLastSpec<T>(ms: seq<T>, lim: int)
    ensures lim >= 1 ==> |SliceLast(ms, lim)| == (if lim < |ms| then lim else |ms|)
    ensures lim >= 1 ==> SliceLast(ms, lim) == ms[|ms| - |SliceLast(ms, lim)|..]
    ensures lim == 0 ==> SliceLast(ms, lim) == ms
    ensures lim < 0 ==> SliceLast(ms, lim) == ms[(if -lim < |ms| then -lim else |ms|)..]
  {
    assert ms[0..] == ms;
  }

  // ---------------------------------------------------------------------
  // The whole read

  /** What the in-page callback returns for these rows, legacy elements and limit. */
  function Extracted(rows: seq<Row>, legacyTexts: seq<string>, lim: int): seq<Message> {
    SliceLast(WithLegacy(Backfill(Collected(rows)), legacyTexts), lim)
  }

  /** The in-page callback: collect, fill senders in place, fall back, truncate. */
  method ExtractMessages(rows: seq<Row>, legacyTexts: seq<string>, lim: int) returns (r: seq<Message>)
    ensures r == Extracted(rows, legacyTexts, lim)
  {
    var collected := CollectRows(rows);
    var a := new Message[|collected|](i requires 0 <= i < |collected| => collected[i]);
    assert a[..] == collected;
    FillSenders(a);
    var filled := a[..];
    if |filled| == 0 {
      filled := [];
      var i := 0;
      while i < |legacyTexts|
        invariant 0 <= i <= |legacyTexts|
        invariant filled == LegacyMessages(legacyTexts[..i])
      {
        var t := Trim(legacyTexts[i]);
        assert legacyTexts[..i + 1][..i] == legacyTexts[..i];
        if t != "" {
          filled := filled + [Message(None, t)];
        }
        i := i + 1;
      }
      assert legacyTexts[..i] == legacyTexts;
    }
    r := SliceLast(filled, lim);
  }

  /**
   * `readMessages` over an abstract page: `pageFails` stands for any error
   * inside its `try` (navigation, clicks, a timeout), which it turns into
   * `null`; otherwise the truncated list is de-duplicated and filtered.
   */
  method ReadMessages(rows: seq<Row>, legacyTexts: seq<string>, lim: int, pageFails: bool)
    returns (r: Option<seq<Message>>)
    ensures pageFails ==> r.None?
    ensures !pageFails ==> r == Some(FilterMessages(Some(KeepLast(Extracted(rows, legacyTexts, lim)))))
  {
    if pageFails {
      return None;
    }
    var messages := ExtractMessages(rows, legacyTexts, lim);
    var deduped := DedupeMessages(messages);
    r := Some(FilterMessages(Some(deduped)));
  }

  /**
   * A successful read returns messages with pairwise distinct keys, each a
   * signal message (non-empty, no noise), in page order, and at most `lim`
   * of them for a positive limit.
   */
  lemma ReadResultSpec(rows: seq<Row>, legacyTexts: seq<string>, lim: int)
    ensures var e := Extracted(rows, legacyTexts, lim);
      var r := FilterMessages(Some(KeepLast(e)));
      && DistinctKeys(r)
      && (forall m :: m in r ==> IsSignal(m))
      && IsSubsequence(r, KeepLast(e))
      && (lim >= 1 ==> |r| <= lim)
  {
    var e := Extracted(rows, legacyTexts, lim);
    var d := KeepLast(e);
    var r := FilterMessages(Some(d));
    FilterMessagesSpec(Some(d));
    if |d| == 0 {
      assert r == [];
    }
    KeepLastDistinct(e);
    SubsequenceKeepsDistinct(r, d);
    SliceLastSpec(WithLegacy(Backfill(Collected(rows)), legacyTexts), lim);
    SubsequenceLength(r, d);
    KeepLastSubsequence(e);
    SubsequenceLength(d, e);
  }

  lemma {:induction false} SubsequenceLength<T>(a: seq<T>, b: seq<T>)
    requires IsSubsequence(a, b)
    ensures |a| <= |b|
  {
    if a != [] {
      if a[0] == b[0] && IsSubsequence(a[1..], b[1..]) {
        SubsequenceLength(a[1..], b[1..]);
      } else {
        SubsequenceLength(a, b[1..]);
      }
    }
  }
}
