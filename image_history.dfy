/**
 * A model of the image history hook: an in-memory list of recent crops,
 * newest first, capped at MAX_HISTORY_ITEMS and mirrored to the single
 * local-storage key 'image_history'. A write to that key may be refused
 * because of the storage quota; the store then drops its oldest record
 * and tries again.
 *
 * Serialisation is the identity: the value under the key is either absent,
 * a list of records, or something that does not parse. The outcome of a
 * write is an oracle, a function of the list being written.
 */
module ImageHistory {

  /** Most records kept after an add. */
  const MAX_HISTORY_ITEMS: nat := 10

  /** One history record: an id taken from the clock, the image as a data URL, an ISO-8601 time. */
  datatype Item = Item(id: int, src: string, timestamp: string)

  /** What the storage key holds. */
  datatype Entry = Absent | Serialized(items: seq<Item>) | Unparseable

  /** How one attempt to write the key ends. */
  datatype WriteOutcome = Written | QuotaExceeded | OtherFailure

  /** The storage's answer to writing a given list. */
  type WriteOracle = seq<Item> -> WriteOutcome

  /** What the quota-aware save leaves behind: the list it settled on, and whether that list was written. */
  datatype SaveOutcome = SaveOutcome(kept: seq<Item>, persisted: bool)

  // ---------------------------------------------------------------------
  // Properties of lists of records
  // ---------------------------------------------------------------------

  /** Ids strictly decrease from front to back: every record is newer than those after it. */
  ghost predicate NewestFirst(s: seq<Item>)
  {
    forall i, j :: 0 <= i < j < |s| ==> s[i].id > s[j].id
  }

  ghost predicate DistinctIds(s: seq<Item>)
  {
    forall i, j :: 0 <= i < j < |s| ==> s[i].id != s[j].id
  }

  ghost predicate HasId(s: seq<Item>, id: int)
  {
    exists i :: 0 <= i < |s| && s[i].id == id
  }

  /** s can be obtained from t by deleting elements, keeping the order of the rest. */
  ghost predicate IsSubsequence(s: seq<Item>, t: seq<Item>)
    decreases |t|
  {
    if s == [] then true
    else if t == [] then false
    else if s[0] == t[0] then IsSubsequence(s[1..], t[1..])
    else IsSubsequence(s, t[1..])
  }

  // ---------------------------------------------------------------------
  // Adding a record
  // ---------------------------------------------------------------------

  /** The new record in front of the previous history, cut to the first MAX_HISTORY_ITEMS. */
  function Capped(item: Item, prev: seq<Item>): (r: seq<Item>)
    ensures |r| == if |prev| < MAX_HISTORY_ITEMS then |prev| + 1 else MAX_HISTORY_ITEMS
    ensures r[0] == item && r[1..] == prev[..|r| - 1]
  {
    var n := if |prev| < MAX_HISTORY_ITEMS then |prev| + 1 else MAX_HISTORY_ITEMS;
    ([item] + prev)[..n]
  }

  /**
   * The quota-aware save: write `items`; on a quota refusal of a non-empty
   * list drop its last (oldest) record and try again; any other outcome ends
   * the attempts with the current list.
   */
  function Save(items: seq<Item>, write: WriteOracle): (r: SaveOutcome)
    // only records from the tail are dropped
    ensures |r.kept| <= |items| && r.kept == items[..|r.kept|]
    // exactly one record is dropped per quota refusal
    ensures forall n :: |r.kept| < n <= |items| ==> write(items[..n]) == QuotaExceeded
    // a list that is not refused for quota is kept whole
    ensures write(items) != QuotaExceeded ==> r.kept == items
    // the list kept was written iff its write succeeded
    ensures r.persisted <==> write(r.kept) == Written
    // a quota refusal only stops the attempts once nothing is left
    ensures write(r.kept) == QuotaExceeded ==> r.kept == []
    decreases |items|
  {
    match write(items)
    case Written => SaveOutcome(items, true)
    case OtherFailure => SaveOutcome(items, false)
    case QuotaExceeded =>
      if |items| > 0 then
        var shorter := items[..|items| - 1];
        assert forall n :: 0 <= n <= |shorter| ==> shorter[..n] == items[..n];
        assert items[..|items|] == items;
        Save(shorter, write)
      else
        SaveOutcome(items, false)
  }

  /** If the quota refuses every prefix of the list, the save ends with the empty list unwritten. */
  lemma SaveExhausted(items: seq<Item>, write: WriteOracle)
    requires forall n :: 0 <= n <= |items| ==> write(items[..n]) == QuotaExceeded
    ensures Save(items, write) == SaveOutcome([], false)
  {
    var r := Save(items, write);
    assert items[..|r.kept|] == r.kept;
  }

  /** The contract of Save determines its result: no other prefix meets it. */
  lemma SaveUnique(items: seq<Item>, write: WriteOracle, k: nat)
    requires k <= |items|
    requires forall n :: k < n <= |items| ==> write(items[..n]) == QuotaExceeded
    requires write(items[..k]) == QuotaExceeded ==> k == 0
    ensures Save(items, write).kept == items[..k]
  {
  }

  /**
   * The history left by an add: the capped list after the quota-aware save.
   * It is at most MAX_HISTORY_ITEMS long, a prefix of the new record followed
   * by the previous history, and starts with the new record unless empty.
   */
  function AfterAdd(item: Item, prev: seq<Item>, write: WriteOracle): (r: seq<Item>)
    ensures |r| <= MAX_HISTORY_ITEMS
    ensures |r| <= |prev| + 1 && r == ([item] + prev)[..|r|]
    ensures r != [] ==> r[0] == item && r[1..] == prev[..|r| - 1]
    ensures write(Capped(item, prev)) != QuotaExceeded ==> r == Capped(item, prev)
  {
    var capped := Capped(item, prev);
    var r := Save(capped, write).kept;
    assert capped == ([item] + prev)[..|capped|];
    assert r == ([item] + prev)[..|r|];
    r
  }

  /** An add with a newer id keeps the history newest first. */
  lemma AddKeepsNewestFirst(item: Item, prev: seq<Item>, write: WriteOracle)
    requires NewestFirst(prev)
    requires forall i :: 0 <= i < |prev| ==> prev[i].id < item.id
    ensures NewestFirst(AfterAdd(item, prev, write))
  {
    var r := AfterAdd(item, prev, write);
    if r != [] {
      var older := prev[..|r| - 1];
      assert r == [item] + older;
      NewerInFront(item, older);
    }
  }

  // ---------------------------------------------------------------------
  // Removing records
  // ---------------------------------------------------------------------

  /** The history without the records whose id is `id`. */
  function Without(items: seq<Item>, id: int): (r: seq<Item>)
    ensures forall i :: 0 <= i < |r| ==> r[i].id != id
    ensures forall x :: multiset(r)[x] == if x.id == id then 0 else multiset(items)[x]
    ensures IsSubsequence(r, items)
    ensures (forall i :: 0 <= i < |items| ==> items[i].id != id) ==> r == items
  {
    if items == [] then []
    else
      var rest := Without(items[1..], id);
      assert items == [items[0]] + items[1..];
      if items[0].id == id then
        rest
      else
        assert ([items[0]] + rest)[1..] == rest;
        [items[0]] + rest
  }

  /** With distinct ids, removing a present id shortens the history by exactly one. */
  lemma {:induction false} WithoutRemovesOne(items: seq<Item>, id: int)
    requires DistinctIds(items)
    requires HasId(items, id)
    ensures |Without(items, id)| == |items| - 1
  {
    var tail := items[1..];
    if items[0].id == id {
      assert !HasId(tail, id);
    } else {
      var i :| 0 <= i < |items| && items[i].id == id;
      assert tail[i - 1].id == id;
      WithoutRemovesOne(tail, id);
    }
  }

  /** Removing records keeps a newest-first history newest first. */
  lemma {:induction false} WithoutKeepsNewestFirst(items: seq<Item>, id: int)
    requires NewestFirst(items)
    ensures NewestFirst(Without(items, id))
  {
    if items != [] {
      var tail := items[1..];
      WithoutKeepsNewestFirst(tail, id);
      if items[0].id != id {
        var rest := Without(tail, id);
        forall j | 0 <= j < |rest|
          ensures items[0].id > rest[j].id
        {
          var x := rest[j];
          assert x in multiset(rest);
          var k :| 0 <= k < |tail| && tail[k] == x;
          assert items[k + 1] == x;
        }
        NewerInFront(items[0], rest);
      }
    }
  }

  /** A record newer than every record of a newest-first list can go in front of it. */
  lemma NewerInFront(x: Item, s: seq<Item>)
    requires NewestFirst(s)
    requires forall j :: 0 <= j < |s| ==> x.id > s[j].id
    ensures NewestFirst([x] + s)
  {
    var r := [x] + s;
    forall i, j | 0 <= i < j < |r|
      ensures r[i].id > r[j].id
    {
      assert r[j] == s[j - 1];
      if i > 0 {
        assert r[i] == s[i - 1];
      }
    }
  }

  // ---------------------------------------------------------------------
  // The hook's state
  // ---------------------------------------------------------------------

  /** The hook: its in-memory history and the value under the storage key. */
  class HistoryStore {
    var history: seq<Item>
    var stored: Entry

    /** Mounting starts from an empty history; the key holds whatever an earlier session left. */
    constructor (saved: Entry)
      ensures history == [] && stored == saved
    {
      history := [];
      stored := saved;
    }

    /** The load effect: a parseable stored list replaces the history; otherwise nothing changes. */
    method Load()
      modifies this`history
      ensures history == if stored.Serialized? then stored.items else old(history)
    {
      match stored
      case Serialized(items) => history := items;
      case Absent =>
      case Unparseable =>
    }

    /** One write of the key; a refused write leaves the key as it was. */
    method SetItem(items: seq<Item>, write: WriteOracle) returns (outcome: WriteOutcome)
      modifies this`stored
      ensures outcome == write(items)
      ensures stored == if outcome == Written then Serialized(items) else old(stored)
    {
      outcome := write(items);
      if outcome == Written {
        stored := Serialized(items);
      }
    }

    /** The quota-aware save, popping the oldest record after each quota refusal. */
    method TrySave(items: seq<Item>, write: WriteOracle) returns (saved: seq<Item>)
      modifies this`stored
      ensures saved == Save(items, write).kept
      ensures stored == if Save(items, write).persisted then Serialized(saved) else old(stored)
    {
      saved := items;
      var outcome := SetItem(saved, write);
      while outcome == QuotaExceeded && |saved| > 0
        invariant Save(saved, write) == Save(items, write)
        invariant outcome == write(saved)
        invariant stored == if outcome == Written then Serialized(saved) else old(stored)
        decreases |saved|
      {
        saved := saved[..|saved| - 1];
        outcome := SetItem(saved, write);
      }
    }

    /** Adds a record built from the given id, data URL and timestamp; the history becomes what was saved. */
    method Add(id: int, src: string, timestamp: string, write: WriteOracle)
      modifies this
      ensures history == AfterAdd(Item(id, src, timestamp), old(history), write)
      ensures stored == if Save(Capped(Item(id, src, timestamp), old(history)), write).persisted
                        then Serialized(history) else old(stored)
    {
      var newHistory := Capped(Item(id, src, timestamp), history);
      var savedItems := TrySave(newHistory, write);
      history := savedItems;
    }

    /** Empties the history and deletes the key. */
    method Clear()
      modifies this
      ensures history == [] && stored == Absent
    {
      history := [];
      stored := Absent;
    }

    /**
     * Removes the records with the given id and writes the rest. The write is
     * not guarded: when it fails the error escapes (`ok` is false) and
     * neither the history nor the key changes.
     */
    method Remove(id: int, write: WriteOracle) returns (ok: bool)
      modifies this
      ensures ok <==> write(Without(old(history), id)) == Written
      ensures ok ==> history == Without(old(history), id) && stored == Serialized(history)
      ensures !ok ==> history == old(history) && stored == old(stored)
    {
      var newHistory := Without(history, id);
      var outcome := SetItem(newHistory, write);
      ok := outcome == Written;
      if ok {
        history := newHistory;
      }
    }
  }

  /** Mounting the hook: construct, then run the load effect. */
  method Mount(saved: Entry) returns (store: HistoryStore)
    ensures fresh(store)
    ensures store.stored == saved
    ensures store.history == if saved.Serialized? then saved.items else []
  {
    store := new HistoryStore(saved);
    store.Load();
  }

  /** After an add whose save succeeded, a reload sees exactly the in-memory history. */
  method AddThenReload(store: HistoryStore, id: int, src: string, timestamp: string, write: WriteOracle)
    returns (reloaded: HistoryStore)
    requires write(Capped(Item(id, src, timestamp), store.history)) == Written
    modifies store
    ensures reloaded.history == store.history == Capped(Item(id, src, timestamp), old(store.history))
  {
    store.Add(id, src, timestamp, write);
    reloaded := Mount(store.stored);
  }

  /** Clearing twice is the same as clearing once, and a reload after clearing sees no history. */
  method ClearThenReload(store: HistoryStore) returns (reloaded: HistoryStore)
    modifies store
    ensures store.history == [] && store.stored == Absent
    ensures reloaded.history == []
  {
    store.Clear();
    store.Clear();
    reloaded := Mount(store.stored);
  }

  /**
   * Two adds, a remove and a clear against storage that accepts every write;
   * the histories after each of the first three steps are returned.
   */
  method ExampleSession(t1: int, t2: int) returns (afterFirst: seq<Item>, afterSecond: seq<Item>,
                                                   afterRemove: seq<Item>, store: HistoryStore)
    requires t1 != t2
    ensures afterFirst == [Item(t1, "data:image/png;base64,AAA", "T1")]
    ensures afterSecond == [Item(t2, "data:image/png;base64,BBB", "T2")] + afterFirst
    ensures afterRemove == [Item(t2, "data:image/png;base64,BBB", "T2")]
    ensures store.history == [] && store.stored == Absent
  {
    var accept: WriteOracle := (items: seq<Item>) => Written;
    var a := Item(t1, "data:image/png;base64,AAA", "T1");
    var b := Item(t2, "data:image/png;base64,BBB", "T2");
    store := Mount(Absent);
    store.Add(t1, a.src, a.timestamp, accept);
    afterFirst := store.history;
    store.Add(t2, b.src, b.timestamp, accept);
    afterSecond := store.history;
    var ok := store.Remove(t1, accept);
    assert Without([b, a], t1) == [b] by {
      assert Without([a], t1) == [];
      assert [b, a][1..] == [a];
    }
    afterRemove := store.history;
    store.Clear();
  }
}
