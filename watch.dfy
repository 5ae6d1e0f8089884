/**
 * The background watcher: one `poll` tick as a state machine over the
 * `alreadyPolling` and `sendInProgress` flags and the `lastSeen` map, with
 * the read result as its input and the list handed to persistence and to
 * the webhook as its output.
 */
module Watch {
  import opened Wrappers
  import opened JsText
  import opened Messages
  import opened Persistence

  /** What the awaited `readMessages` call does: throw, or return a list or null. */
  datatype ReadOutcome = Threw | Returned(messages: Option<seq<Message>>)

  /** The watcher's mutable state as a value. */
  datatype WatchState = WatchState(alreadyPolling: bool, sendInProgress: bool, lastSeen: map<string, string>)

  /** `lastSeen.get(target)` */
  function Marker(lastSeen: map<string, string>, target: string): Option<string> {
    if target in lastSeen then Some(lastSeen[target]) else None
  }

  /** One tick of `poll`: the next state and the messages handed on (empty when nothing is). */
  function Tick(target: string, s: WatchState, outcome: ReadOutcome): (WatchState, seq<Message>) {
    if s.alreadyPolling then (s, [])
    else if s.sendInProgress then (s, [])
    else
      match outcome
      case Threw => (s.(alreadyPolling := true), [])
      case Returned(ms) =>
        if ms.None? || |ms.value| == 0 then (s, [])
        else
          var d := DiffMessages(Marker(s.lastSeen, target), ms.value);
          (s.(lastSeen := s.lastSeen[target := Key(ms.value[|ms.value| - 1])]), d.newMessages)
  }

  /** A run of ticks: the final state and everything handed on, in order. */
  function Run(target: string, s: WatchState, outcomes: seq<ReadOutcome>): (WatchState, seq<Message>)
    decreases |outcomes|
  {
    if outcomes == [] then (s, [])
    else
      var (s1, out1) := Tick(target, s, outcomes[0]);
      var (s2, out2) := Run(target, s1, outcomes[1..]);
      (s2, out1 + out2)
  }

  /**
   * A tick is skipped while another is in progress; a tick during a send, or
   * one whose read gives null or nothing, changes nothing; a tick whose read
   * throws leaves `alreadyPolling` set.
   */
  lemma TickQuiet(target: string, s: WatchState, outcome: ReadOutcome)
    ensures s.alreadyPolling ==> Tick(target, s, outcome) == (s, [])
    ensures !s.alreadyPolling && s.sendInProgress ==> Tick(target, s, outcome) == (s, [])
    ensures !s.alreadyPolling && outcome.Returned? && (outcome.messages.None? || outcome.messages.value == []) ==>
      Tick(target, s, outcome) == (s, [])
    ensures !s.alreadyPolling && !s.sendInProgress && outcome.Threw? ==>
      Tick(target, s, outcome) == (s.(alreadyPolling := true), [])
  {
  }

  /**
   * A tick that reads a non-empty list hands on exactly the diff's new
   * messages, a suffix of the list, records the list's last key for the
   * target and leaves every other entry alone.
   */
  lemma TickDelivers(target: string, s: WatchState, ms: seq<Message>)
    requires !s.alreadyPolling && !s.sendInProgress && |ms| > 0
    ensures var (s', out) := Tick(target, s, Returned(Some(ms)));
      var d := DiffMessages(Marker(s.lastSeen, target), ms);
      && !s'.alreadyPolling && s'.sendInProgress == s.sendInProgress
      && out == d.newMessages
      && (exists i: nat :: i <= |ms| && out == ms[i..])
      && Marker(s'.lastSeen, target) == d.lastSeenKey
      && (forall t :: t != target ==> Marker(s'.lastSeen, t) == Marker(s.lastSeen, t))
  {
    DiffMessagesSpec(Marker(s.lastSeen, target), ms);
  }

  /** The watcher only ever records a marker for its own target. */
  lemma TickKeepsOneTarget(target: string, s: WatchState, outcome: ReadOutcome)
    requires s.lastSeen.Keys <= {target}
    ensures Tick(target, s, outcome).0.lastSeen.Keys <= {target}
  {
  }

  /** Reading the very same non-empty batch on the next tick hands nothing on. */
  lemma SameBatchTwiceHandsNothing(target: string, s: WatchState, ms: seq<Message>)
    requires !s.alreadyPolling && !s.sendInProgress && |ms| > 0
    ensures var s1 := Tick(target, s, Returned(Some(ms))).0;
      Tick(target, s1, Returned(Some(ms))) == (s1, [])
  {
    var m := Marker(s.lastSeen, target);
    var key := Key(ms[|ms| - 1]);
    var s1 := s.(lastSeen := s.lastSeen[target := key]);
    assert Tick(target, s, Returned(Some(ms))).0 == s1;
    assert Marker(s1.lastSeen, target) == Some(key) == DiffMessages(m, ms).lastSeenKey;
    DiffAgainstOwnMarker(m, ms);
    assert DiffMessages(Some(key), ms).newMessages == [];
    RecordingSameKey(s1.lastSeen, target, key);
    assert s1.(lastSeen := s1.lastSeen[target := key]) == s1;
  }

  lemma RecordingSameKey(lastSeen: map<string, string>, target: string, key: string)
    requires target in lastSeen && lastSeen[target] == key
    ensures lastSeen[target := key] == lastSeen
  {
  }

  /**
   * When the next read shows the previous batch followed by `extra`, whose
   * keys all differ from the previous last key, exactly `extra` is handed on.
   */
  lemma ExtendedBatchHandsOnExtra(target: string, s: WatchState, before: seq<Message>, extra: seq<Message>)
    requires !s.alreadyPolling && !s.sendInProgress && |before| > 0
    requires forall j :: 0 <= j < |extra| ==> Key(extra[j]) != Key(before[|before| - 1])
    ensures var s1 := Tick(target, s, Returned(Some(before))).0;
      Tick(target, s1, Returned(Some(before + extra))).1 == extra
  {
    var m := Marker(s.lastSeen, target);
    var key := Key(before[|before| - 1]);
    var s1 := s.(lastSeen := s.lastSeen[target := key]);
    assert Tick(target, s, Returned(Some(before))).0 == s1;
    assert Marker(s1.lastSeen, target) == Some(key) == DiffMessages(m, before).lastSeenKey;
    DiffOfExtendedBatch(m, before, extra);
    assert |before + extra| > 0;
  }

  /** While `alreadyPolling` is set, every tick is skipped. */
  lemma {:induction false} SkippedWhilePolling(target: string, s: WatchState, outcomes: seq<ReadOutcome>)
    requires s.alreadyPolling
    ensures Run(target, s, outcomes) == (s, [])
    decreases |outcomes|
  {
    if outcomes != [] {
      SkippedWhilePolling(target, s, outcomes[1..]);
      assert Tick(target, s, outcomes[0]) == (s, []);
      var empty: seq<Message> := [];
      assert empty + empty == empty;
    }
  }

  /** Once a read throws, `alreadyPolling` stays set and every later tick is skipped. */
  lemma StuckAfterThrow(target: string, s: WatchState, outcomes: seq<ReadOutcome>)
    requires !s.alreadyPolling && !s.sendInProgress
    ensures var s1 := Tick(target, s, Threw).0;
      s1.alreadyPolling && Run(target, s1, outcomes) == (s1, [])
  {
    SkippedWhilePolling(target, Tick(target, s, Threw).0, outcomes);
  }

  /** The tick with `alreadyPolling` reset on every path, including a throw. */
  function TickRecovering(target: string, s: WatchState, outcome: ReadOutcome): (WatchState, seq<Message>) {
    if outcome.Threw? && !s.alreadyPolling then (s, []) else Tick(target, s, outcome)
  }

  /** With the reset in place a throw leaves the state as it was, so the next good read is handled. */
  lemma RecoversAfterThrow(target: string, s: WatchState, ms: seq<Message>)
    requires !s.alreadyPolling && !s.sendInProgress && |ms| > 0
    ensures var s1 := TickRecovering(target, s, Threw).0;
      && !s1.alreadyPolling
      && TickRecovering(target, s1, Returned(Some(ms))).1 == DiffMessages(Marker(s.lastSeen, target), ms).newMessages
  {
  }

  // ---------------------------------------------------------------------
  // The watcher object

  /** `watchConversationId || watchConversation`: the conversation polled, if the watcher runs at all. */
  function WatchTarget(conversationId: Option<string>, conversationName: Option<string>): Option<string> {
    if Truthy(conversationId) then conversationId
    else if Truthy(conversationName) then conversationName
    else None
  }

  /** The reference handed to persistence and the webhook: the target as key, id and name when set. */
  function WatchRef(conversationId: Option<string>, conversationName: Option<string>): RefInput {
    ObjectRef(WatchTarget(conversationId, conversationName),
              if Truthy(conversationId) then conversationId else None,
              if Truthy(conversationName) then conversationName else None)
  }

  /** One webhook payload: the conversation reference and one message. */
  datatype Payload = Payload(key: Option<string>, id: Option<string>, name: Option<string>, message: Message)

  /** `sendWatchWebhook`: one payload per message, none without a URL or messages. */
  function WebhookPayloads(urlSet: bool, ref: RefInput, ms: seq<Message>): (ps: seq<Payload>)
    requires ref.ObjectRef?
    ensures |ps| == (if urlSet then |ms| else 0)
    ensures forall i :: 0 <= i < |ps| ==>
      ps[i].message == ms[i] && ps[i].key == ref.key && ps[i].id == ref.id && ps[i].name == ref.name
  {
    if !urlSet || |ms| == 0 then []
    else seq(|ms|, i requires 0 <= i < |ms| => Payload(ref.key, ref.id, ref.name, ms[i]))
  }

  class Watcher {
    const conversationId: Option<string>
    const conversationName: Option<string>
    const webhookConfigured: bool
    var alreadyPolling: bool
    var sendInProgress: bool
    var lastSeen: map<string, string>

    function Target(): string
      requires Truthy(WatchTarget(conversationId, conversationName))
    {
      WatchTarget(conversationId, conversationName).value
    }

    function State(): WatchState
      reads this
    {
      WatchState(alreadyPolling, sendInProgress, lastSeen)
    }

    /** The watcher is started only when a target is configured. */
    constructor (conversationId: Option<string>, conversationName: Option<string>, webhookConfigured: bool)
      requires Truthy(WatchTarget(conversationId, conversationName))
      ensures this.conversationId == conversationId && this.conversationName == conversationName
      ensures this.webhookConfigured == webhookConfigured
      ensures State() == WatchState(false, false, map[])
    {
      this.conversationId := conversationId;
      this.conversationName := conversationName;
      this.webhookConfigured := webhookConfigured;
      alreadyPolling := false;
      sendInProgress := false;
      lastSeen := map[];
    }

    /** `sendMessage` raises the flag once it has a page... */
    method BeginSend()
      modifies this
      ensures State() == old(State()).(sendInProgress := true)
    {
      sendInProgress := true;
    }

    /** ...and lowers it in its `finally`. */
    method EndSend()
      modifies this
      ensures State() == old(State()).(sendInProgress := false)
    {
      sendInProgress := false;
    }

    /**
     * `poll`: returns the messages given to `persistMessages` and the webhook
     * payloads posted (both empty when the tick hands nothing on).
     */
    method Poll(outcome: ReadOutcome) returns (persisted: seq<Message>, posted: seq<Payload>)
      requires Truthy(WatchTarget(conversationId, conversationName))
      modifies this
      ensures (State(), persisted) == Tick(Target(), old(State()), outcome)
      ensures posted == WebhookPayloads(webhookConfigured, WatchRef(conversationId, conversationName), persisted)
    {
      persisted, posted := [], [];
      if alreadyPolling {
        return;
      }
      alreadyPolling := true;
      if sendInProgress {
        alreadyPolling := false;
        return;
      }
      match outcome
      case Threw =>
        // the `catch` only logs
        return;
      case Returned(messages) =>
        if messages.None? || |messages.value| == 0 {
          alreadyPolling := false;
          return;
        }
        var target := Target();
        var d := DiffMessages(Marker(lastSeen, target), messages.value);
        if |d.newMessages| > 0 {
          persisted := d.newMessages;
          posted := WebhookPayloads(webhookConfigured, WatchRef(conversationId, conversationName), persisted);
        }
        lastSeen := lastSeen[target := d.lastSeenKey.value];
        alreadyPolling := false;
    }
  }

  /** A watcher whose first read throws never hands anything on again. */
  method ThrowStopsWatcher(ms: seq<Message>) returns (persisted: seq<Message>)
    ensures persisted == []
  {
    var w := new Watcher(Some("123456"), None, false);
    var p0, q0 := w.Poll(Threw);
    var q1;
    persisted, q1 := w.Poll(Returned(Some(ms)));
  }

  /** A first good read hands its whole batch on; an identical second read hands nothing. */
  method FirstReadHandsAll(ms: seq<Message>) returns (first: seq<Message>, second: seq<Message>)
    requires |ms| > 0
    ensures first == ms && second == []
  {
    var w := new Watcher(Some("123456"), None, false);
    DiffWithoutMarkerKey(None, ms);
    var q0, q1;
    first, q0 := w.Poll(Returned(Some(ms)));
    SameBatchTwiceHandsNothing("123456", WatchState(false, false, map[]), ms);
    second, q1 := w.Poll(Returned(Some(ms)));
  }
}
