/**
 * The optional SQLite log: how a conversation reference is normalised, which
 * rows `persistMessages` inserts, and the `sqliteDisabled` switch that turns
 * the feature off for good after a failed initialisation. The database is
 * the sequence of rows inserted so far; the driver's behaviour is given by
 * parameters saying whether initialisation and each insert succeed.
 */
module Persistence {
  import opened Wrappers
  import opened JsText
  import opened Messages

  /**
   * The values a conversation reference can be. `Missing` is any falsy value
   * (null, undefined, false, 0); an object's fields are strings or absent;
   * `OtherRef` is any other truthy value, given by its `String(ref)`.
   */
  datatype RefInput =
    | Missing
    | StringRef(s: string)
    | ObjectRef(key: Option<string>, id: Option<string>, name: Option<string>)
    | OtherRef(asString: string)

  datatype ConversationRef = ConversationRef(key: Option<string>, id: Option<string>, name: Option<string>)

  /** `f && String(f).trim()`, with every falsy outcome written as `""`. */
  function TrimmedField(f: Option<string>): string {
    if Truthy(f) then Trim(f.value) else ""
  }

  /** `f ? String(f).trim() : null` */
  function TrimmedOrNull(f: Option<string>): Option<string> {
    if Truthy(f) then Some(Trim(f.value)) else None
  }

  function NormalizeConversationRef(ref: RefInput): ConversationRef {
    match ref
    case Missing => ConversationRef(None, None, None)
    case StringRef(s) =>
      if s == "" then ConversationRef(None, None, None)
      else
        var t := Trim(s);
        ConversationRef(if t != "" then Some(t) else None, None, None)
    case ObjectRef(key, id, name) =>
      var k :=
        if TrimmedField(key) != "" then Some(TrimmedField(key))
        else if TrimmedField(id) != "" then Some(TrimmedField(id))
        else if TrimmedField(name) != "" then Some(TrimmedField(name))
        else None;
      ConversationRef(k, TrimmedOrNull(id), TrimmedOrNull(name))
    case OtherRef(t) => ConversationRef(Some(Trim(t)), None, None)
  }

  /**
   * A falsy reference gives all nulls. A string gives its trimmed text as
   * the key, or a null key when that is empty. An object's key is the first
   * of key, id, name that is non-empty once trimmed, and null when there is
   * none; its id and name are trimmed when truthy and null otherwise.
   * Except for a non-string, non-object value, a key is trimmed and non-empty.
   */
  lemma NormalizeSpec(ref: RefInput)
    ensures var r := NormalizeConversationRef(ref);
      && (ref.Missing? ==> r == ConversationRef(None, None, None))
      && (!ref.OtherRef? && r.key.Some? ==> r.key.value != "" && Trim(r.key.value) == r.key.value)
      && (ref.StringRef? ==>
            && r.id.None? && r.name.None?
            && (r.key.None? <==> Trim(ref.s) == "")
            && (r.key.Some? ==> r.key.value == Trim(ref.s)))
      && (ref.ObjectRef? ==>
            && (r.key.None? <==>
                  TrimmedField(ref.key) == "" && TrimmedField(ref.id) == "" && TrimmedField(ref.name) == "")
            && (TrimmedField(ref.key) != "" ==> r.key == Some(TrimmedField(ref.key)))
            && (TrimmedField(ref.key) == "" && TrimmedField(ref.id) != "" ==> r.key == Some(TrimmedField(ref.id)))
            && (TrimmedField(ref.key) == "" && TrimmedField(ref.id) == "" && TrimmedField(ref.name) != "" ==>
                  r.key == Some(TrimmedField(ref.name)))
            && (Truthy(ref.id) <==> r.id.Some?) && (r.id.Some? ==> r.id.value == Trim(ref.id.value))
            && (Truthy(ref.name) <==> r.name.Some?) && (r.name.Some? ==> r.name.value == Trim(ref.name.value)))
      && (ref.OtherRef? ==> r == ConversationRef(Some(Trim(ref.asString)), None, None))
  {
    match ref
    case StringRef(s) => TrimIdempotent(s);
    case ObjectRef(key, id, name) =>
      if Truthy(key) { TrimIdempotent(key.value); }
      if Truthy(id) { TrimIdempotent(id.value); }
      if Truthy(name) { TrimIdempotent(name.value); }
    case _ =>
  }

  /** A white-space-only id is kept as an empty string, not turned into null. */
  lemma BlankIdIsKeptEmpty()
    ensures NormalizeConversationRef(ObjectRef(None, Some(" "), None)) == ConversationRef(None, Some(""), None)
  {
    assert Trim(" ") == "" by {
      assert TrimStart(" ") == TrimStart(" "[1..]);
      assert " "[1..] == "";
    }
  }

  /** Normalising the fields of a normalised object reference again keeps its key. */
  lemma NormalizeKeepsKey(key: Option<string>, id: Option<string>, name: Option<string>)
    ensures var r := NormalizeConversationRef(ObjectRef(key, id, name));
      NormalizeConversationRef(ObjectRef(r.key, r.id, r.name)).key == r.key
  {
    NormalizeSpec(ObjectRef(key, id, name));
    var r := NormalizeConversationRef(ObjectRef(key, id, name));
    if r.key.None? {
      if Truthy(id) { TrimIdempotent(id.value); }
      if Truthy(name) { TrimIdempotent(name.value); }
    }
  }

  // ---------------------------------------------------------------------
  // Row emission

  /** One `INSERT` into the messages table (the generated id and timestamp left out). */
  datatype StoredRow = StoredRow(
    conversationKey: string,
    conversationId: Option<string>,
    conversationName: Option<string>,
    sender: Option<string>,
    text: string)

  /** The row for one message: `[key, id, name, sender || null, text]`. */
  function RowFor(key: string, c: ConversationRef, m: Message): StoredRow {
    StoredRow(key, c.id, c.name, if Truthy(m.sender) then m.sender else None, m.text)
  }

  /** The rows the loop inserts when nothing fails: one per message whose text is truthy. */
  function RowsFor(key: string, c: ConversationRef, ms: seq<Message>): seq<StoredRow> {
    if ms == [] then []
    else
      var last := ms[|ms| - 1];
      RowsFor(key, c, ms[..|ms| - 1]) + (if last.text != "" then [RowFor(key, c, last)] else [])
  }

  /** When the message at `i` has text, the rows of the messages before it are a proper prefix of all rows. */
  lemma RowsBeforeFailure(key: string, c: ConversationRef, ms: seq<Message>, i: nat)
    requires i < |ms| && ms[i].text != ""
    ensures |RowsFor(key, c, ms[..i])| < |RowsFor(key, c, ms)|
    ensures RowsFor(key, c, ms)[..|RowsFor(key, c, ms[..i])|] == RowsFor(key, c, ms[..i])
  {
    RowsForAppend(key, c, ms[..i + 1], ms[i + 1..]);
    assert ms[..i + 1] + ms[i + 1..] == ms;
    RowsForAppend(key, c, ms[..i], [ms[i]]);
    assert ms[..i] + [ms[i]] == ms[..i + 1];
  }

  /** Rows are emitted message by message, so the rows of a concatenation concatenate. */
  lemma {:induction false} RowsForAppend(key: string, c: ConversationRef, a: seq<Message>, b: seq<Message>)
    ensures RowsFor(key, c, a + b) == RowsFor(key, c, a) + RowsFor(key, c, b)
    decreases |b|
  {
    if b == [] {
      assert a + b == a;
    } else {
      assert (a + b)[..|a + b| - 1] == a + b[..|b| - 1];
      RowsForAppend(key, c, a, b[..|b| - 1]);
    }
  }

  /**
   * Every row carries the conversation's key, id and name and a non-empty
   * text, and is the row of some message with text; every message with text
   * has its row.
   */
  lemma {:induction false} RowsForSpec(key: string, c: ConversationRef, ms: seq<Message>)
    ensures |RowsFor(key, c, ms)| <= |ms|
    ensures forall r :: r in RowsFor(key, c, ms) ==>
      r.conversationKey == key && r.conversationId == c.id && r.conversationName == c.name && r.text != ""
    ensures forall r :: r in RowsFor(key, c, ms) ==> exists m :: m in ms && m.text != "" && r == RowFor(key, c, m)
    ensures forall m :: m in ms && m.text != "" ==> RowFor(key, c, m) in RowsFor(key, c, ms)
    ensures (forall m :: m in ms ==> m.text == "") <==> RowsFor(key, c, ms) == []
  {
    if ms != [] {
      var init := ms[..|ms| - 1];
      RowsForSpec(key, c, init);
      assert ms == init + [ms[|ms| - 1]];
      assert forall m :: m in ms ==> m in init || m == ms[|ms| - 1];
    }
  }

  // ---------------------------------------------------------------------
  // The store

  /** The module-level state of the SQLite helper and the table it writes. */
  class Store {
    /** `SQLITE_DB_PATH` is set. */
    const configured: bool
    /** `sqliteDisabled`: set when loading the driver or initialising fails, never cleared. */
    var disabled: bool
    /** `sqliteDb` is set: the database is open and the table exists. */
    var isOpen: bool
    /** The rows inserted so far, in order. */
    var rows: seq<StoredRow>

    constructor (configured: bool)
      ensures this.configured == configured && !disabled && !isOpen && rows == []
    {
      this.configured := configured;
      disabled := false;
      isOpen := false;
      rows := [];
    }

    /** The early returns of `persistMessages` all pass for this call. */
    predicate Accepts(ref: RefInput, messages: Option<seq<Message>>)
      reads this
    {
      && configured && !disabled
      && messages.Some? && |messages.value| > 0
      && Truthy(NormalizeConversationRef(ref).key)
    }

    /**
     * `persistMessages`. `initSucceeds` says whether loading the driver,
     * opening the file and creating the table succeed if they are tried;
     * `failingInsert` is the number of inserts that succeed before one fails,
     * if one does.
     */
    method Persist(ref: RefInput, messages: Option<seq<Message>>, initSucceeds: bool, failingInsert: Option<nat>)
      returns (ok: bool)
      modifies this
      ensures !old(Accepts(ref, messages)) ==>
        !ok && disabled == old(disabled) && isOpen == old(isOpen) && rows == old(rows)
      ensures old(Accepts(ref, messages)) && !old(isOpen) && !initSucceeds ==>
        !ok && disabled && !isOpen && rows == old(rows)
      ensures old(Accepts(ref, messages)) && (old(isOpen) || initSucceeds) ==>
        var c := NormalizeConversationRef(ref);
        var emitted := RowsFor(c.key.value, c, messages.value);
        && isOpen && disabled == old(disabled)
        && (ok <==> failingInsert.None? || failingInsert.value >= |emitted|)
        && rows == old(rows) + (if ok then emitted else emitted[..failingInsert.value])
    {
      if !configured || disabled {
        return false;
      }
      if messages.None? || |messages.value| == 0 {
        return false;
      }
      var c := NormalizeConversationRef(ref);
      if !Truthy(c.key) {
        return false;
      }
      if !isOpen {
        if !initSucceeds {
          disabled := true;
          return false;
        }
        isOpen := true;
      }
      ok := InsertAll(c.key.value, c, messages.value, failingInsert);
    }

    /** The insert loop: one row per message with a truthy text, stopping at the failing insert. */
    method InsertAll(key: string, c: ConversationRef, ms: seq<Message>, failingInsert: Option<nat>)
      returns (ok: bool)
      modifies this
      ensures disabled == old(disabled) && isOpen == old(isOpen)
      ensures ok <==> failingInsert.None? || failingInsert.value >= |RowsFor(key, c, ms)|
      ensures rows == old(rows) + (if ok then RowsFor(key, c, ms) else RowsFor(key, c, ms)[..failingInsert.value])
    {
      var i := 0;
      var inserted := 0;
      while i < |ms|
        invariant 0 <= i <= |ms|
        invariant inserted == |RowsFor(key, c, ms[..i])|
        invariant failingInsert.None? || inserted <= failingInsert.value
        invariant rows == old(rows) + RowsFor(key, c, ms[..i])
        invariant isOpen == old(isOpen) && disabled == old(disabled)
      {
        assert ms[..i + 1][..i] == ms[..i];
        if ms[i].text == "" {
          i := i + 1;
          continue;
        }
        if failingInsert == Some(inserted) {
          RowsBeforeFailure(key, c, ms, i);
          return false;
        }
        rows := rows + [RowFor(key, c, ms[i])];
        inserted := inserted + 1;
        i := i + 1;
      }
      assert ms[..i] == ms;
      return true;
    }
  }

  /** No database path: nothing is stored. */
  method NotConfiguredStoresNothing() returns (stored: bool, rows: seq<StoredRow>)
    ensures !stored && rows == []
  {
    var store := new Store(false);
    stored := store.Persist(StringRef("conv"), Some([Message(None, "Hej")]), true, None);
    rows := store.rows;
  }

  /** With a working driver, one message gives the row `[conv-key, 123, Tomasz, Janek, Siema]`. */
  method StoresOneRow() returns (stored: bool, rows: seq<StoredRow>)
    ensures stored
    ensures rows == [StoredRow("conv-key", Some("123"), Some("Tomasz"), Some("Janek"), "Siema")]
  {
    var store := new Store(true);
    var ref := ObjectRef(Some("conv-key"), Some("123"), Some("Tomasz"));
    TrimOfUnpadded("conv-key");
    TrimOfUnpadded("123");
    TrimOfUnpadded("Tomasz");
    stored := store.Persist(ref, Some([Message(Some("Janek"), "Siema")]), true, None);
    rows := store.rows;
  }

  /** After a failed initialisation every later call fails, even once the driver would work. */
  method DisabledStaysDisabled() returns (first: bool, second: bool, rows: seq<StoredRow>)
    ensures !first && !second && rows == []
  {
    var store := new Store(true);
    TrimOfUnpadded("conv");
    first := store.Persist(StringRef("conv"), Some([Message(None, "Hej")]), false, None);
    second := store.Persist(StringRef("conv"), Some([Message(None, "Hej")]), true, None);
    rows := store.rows;
  }
}
