/**
 The worker registry file: what each operation rewrites it to, and what
 interleaved operations do when the lock is taken on the opened handle while
 updates replace the file at the path.
 */
module Registry {
  import opened Common

  datatype Entry = Entry(pid: int, host: string, port: int, details: string)

  type Key = (string, int)

  function KeyOf(e: Entry): Key {
    (e.host, e.port)
  }

  /** One element of the decoded JSON: not an object, an object with wrong fields, or an entry. */
  datatype Item = NotObject | WrongFields | Good(entry: Entry)

  /** File text: blank, not decodable into something iterable, or decoded. */
  datatype Content = Blank | Undecodable | Items(items: seq<Item>)

  function GoodEntries(items: seq<Item>): seq<Entry> {
    if items == [] then []
    else (if items[0].Good? then [items[0].entry] else []) + GoodEntries(items[1..])
  }

  /** How the rewriting operations read the file: one object with wrong fields spoils the whole. */
  function Strict(c: Content): Option<seq<Entry>> {
    if c.Items? && WrongFields !in c.items then Some(GoodEntries(c.items)) else None
  }

  function Entries(c: Content): seq<Entry> {
    if Strict(c).Some? then Strict(c).value else []
  }

  // --------------------------------------------------------------------- operations

  datatype Op = Register(entry: Entry) | Unregister(host: string, port: int) | RemoveStale(pid: int)

  /** The entries an operation removes or replaces. */
  predicate Owns(op: Op, e: Entry) {
    match op
    case Register(entry) => KeyOf(e) == KeyOf(entry)
    case Unregister(host, port) => e.host == host && e.port == port
    case RemoveStale(pid) => e.pid == pid
  }

  function Others(op: Op, es: seq<Entry>): seq<Entry> {
    if es == [] then [] else (if Owns(op, es[0]) then [] else [es[0]]) + Others(op, es[1..])
  }

  /** The entries kept, with the new one last when registering. */
  function Written(op: Op, es: seq<Entry>): seq<Entry> {
    if op.Register? then Others(op, es) + [op.entry] else Others(op, es)
  }

  /** The list an operation writes after reading `c`, or nothing when it leaves the file alone. */
  function Rewrite(op: Op, c: Content): Option<seq<Entry>> {
    if !op.Register? && |Others(op, Entries(c))| == |Entries(c)| then None else Some(Written(op, Entries(c)))
  }

  function Serialized(es: seq<Entry>): Content {
    Items(seq(|es|, i requires 0 <= i < |es| => Good(es[i])))
  }

  // ------------------------------------------------------------ the registry as a map

  ghost predicate UniqueKeys(es: seq<Entry>) {
    forall i, j :: 0 <= i < j < |es| ==> KeyOf(es[i]) != KeyOf(es[j])
  }

  ghost function AsMap(es: seq<Entry>): map<Key, Entry> {
    if es == [] then map[] else AsMap(es[..|es| - 1])[KeyOf(es[|es| - 1]) := es[|es| - 1]]
  }

  /** Put, delete, and delete by process id. */
  ghost function OnMap(op: Op, m: map<Key, Entry>): map<Key, Entry> {
    match op
    case Register(entry) => m[KeyOf(entry) := entry]
    case Unregister(host, port) => m - {(host, port)}
    case RemoveStale(pid) => map k | k in m && m[k].pid != pid :: m[k]
  }

  /** What an operation must not touch. */
  ghost function Untouched(op: Op, m: map<Key, Entry>): map<Key, Entry> {
    map k | k in m && !Owns(op, m[k]) :: m[k]
  }

  ghost predicate Maps(m: map<Key, Entry>, k: Key, e: Entry) {
    k in m && m[k] == e
  }

  lemma {:induction false} AsMapMembers(es: seq<Entry>)
    requires UniqueKeys(es)
    ensures forall k, e :: Maps(AsMap(es), k, e) <==> e in es && KeyOf(e) == k
    ensures forall k :: k in AsMap(es) ==> AsMap(es)[k] in es && KeyOf(AsMap(es)[k]) == k
  {
    if es != [] {
      var init, last := es[..|es| - 1], es[|es| - 1];
      AsMapMembers(init);
      assert es == init + [last];
      forall k, e ensures Maps(AsMap(es), k, e) <==> e in es && KeyOf(e) == k {
        assert Maps(AsMap(init), k, e) <==> e in init && KeyOf(e) == k;
      }
      forall k | k in AsMap(es) ensures AsMap(es)[k] in es && KeyOf(AsMap(es)[k]) == k {
        assert Maps(AsMap(es), k, AsMap(es)[k]);
      }
    }
  }

  lemma {:induction false} OthersMembers(op: Op, es: seq<Entry>)
    ensures forall e :: e in Others(op, es) <==> e in es && !Owns(op, e)
    ensures |Others(op, es)| <= |es|
    ensures |Others(op, es)| == |es| <==> Others(op, es) == es
  {
    if es != [] {
      OthersMembers(op, es[1..]);
      assert es == [es[0]] + es[1..];
    }
  }

  lemma {:induction false} OthersKeepUnique(op: Op, es: seq<Entry>)
    requires UniqueKeys(es)
    ensures UniqueKeys(Others(op, es))
  {
    if es != [] {
      OthersKeepUnique(op, es[1..]);
      OthersMembers(op, es[1..]);
      var rest := Others(op, es[1..]);
      forall j | 0 <= j < |rest| ensures KeyOf(es[0]) != KeyOf(rest[j]) {
        assert rest[j] in es[1..];
        var i :| 1 <= i < |es| && es[i] == rest[j];
      }
    }
  }

  lemma {:induction false} SerializedEntries(es: seq<Entry>)
    ensures Strict(Serialized(es)) == Some(es)
  {
    var items := Serialized(es).items;
    if es != [] {
      SerializedEntries(es[1..]);
      assert items[1..] == Serialized(es[1..]).items;
      assert [es[0]] + es[1..] == es;
    }
    assert WrongFields !in items;
  }

  lemma MapsAgree(a: map<Key, Entry>, b: map<Key, Entry>)
    requires forall k, e :: Maps(a, k, e) <==> Maps(b, k, e)
    ensures a == b
  {
    forall k | k in a ensures k in b && b[k] == a[k] {
      assert Maps(a, k, a[k]);
    }
    forall k | k in b ensures k in a && a[k] == b[k] {
      assert Maps(b, k, b[k]);
    }
  }

  lemma {:induction false} UntouchedIsOthers(op: Op, es: seq<Entry>)
    requires UniqueKeys(es)
    ensures AsMap(Others(op, es)) == Untouched(op, AsMap(es))
  {
    OthersMembers(op, es);
    OthersKeepUnique(op, es);
    AsMapMembers(es);
    AsMapMembers(Others(op, es));
    var a, b := AsMap(Others(op, es)), Untouched(op, AsMap(es));
    forall k, e ensures Maps(a, k, e) <==> Maps(b, k, e) {
      assert Maps(AsMap(es), k, e) <==> e in es && KeyOf(e) == k;
    }
    MapsAgree(a, b);
  }

  /** Keys are never duplicated by a rewrite. */
  lemma {:induction false} RewriteKeepsKeysUnique(op: Op, c: Content)
    requires UniqueKeys(Entries(c)) && Rewrite(op, c).Some?
    ensures UniqueKeys(Rewrite(op, c).value)
  {
    OthersMembers(op, Entries(c));
    OthersKeepUnique(op, Entries(c));
    if op.Register? {
      assert forall i :: 0 <= i < |Others(op, Entries(c))| ==> Others(op, Entries(c))[i] in Others(op, Entries(c));
    }
  }

  /** A rewrite is exactly the map operation; leaving the file alone means there was nothing to remove. */
  lemma {:induction false} RewriteIsMapOperation(op: Op, c: Content)
    requires UniqueKeys(Entries(c))
    ensures Rewrite(op, c).Some? ==> AsMap(Rewrite(op, c).value) == OnMap(op, AsMap(Entries(c)))
    ensures Rewrite(op, c).None? ==> OnMap(op, AsMap(Entries(c))) == AsMap(Entries(c))
    ensures Rewrite(op, c).None? <==> !op.Register? && forall e :: e in Entries(c) ==> !Owns(op, e)
  {
    LeavesAloneIff(op, Entries(c));
    WrittenIsMapOperation(op, Entries(c));
  }

  lemma {:induction false} WrittenIsMapOperation(op: Op, es: seq<Entry>)
    requires UniqueKeys(es)
    ensures AsMap(Written(op, es)) == OnMap(op, AsMap(es))
  {
    UntouchedIsOthers(op, es);
    UntouchedOnMap(op, es);
    var others, w := Others(op, es), Written(op, es);
    if op.Register? {
      assert w[..|w| - 1] == others;
    } else {
      assert w == others;
    }
  }

  lemma {:induction false} LeavesAloneIff(op: Op, es: seq<Entry>)
    ensures |Others(op, es)| == |es| <==> forall e :: e in es ==> !Owns(op, e)
    ensures |Others(op, es)| == |es| ==> Others(op, es) == es
  {
    OthersMembers(op, es);
    if forall e :: e in es ==> !Owns(op, e) {
      NothingOwned(op, es);
    }
  }

  lemma {:induction false} NothingOwned(op: Op, es: seq<Entry>)
    requires forall e :: e in es ==> !Owns(op, e)
    ensures Others(op, es) == es
  {
    if es != [] {
      NothingOwned(op, es[1..]);
    }
  }

  lemma {:induction false} UntouchedOnMap(op: Op, es: seq<Entry>)
    requires UniqueKeys(es)
    ensures OnMap(op, AsMap(es))
         == if op.Register? then Untouched(op, AsMap(es))[KeyOf(op.entry) := op.entry] else Untouched(op, AsMap(es))
  {
    AsMapMembers(es);
    var m, u := AsMap(es), Untouched(op, AsMap(es));
    assert forall k :: k in u ==> k in m && u[k] == m[k];
    match op
    case Register(entry) => assert forall k :: k in m && k !in u ==> k == KeyOf(entry);
    case Unregister(host, port) => assert forall k :: k in m && k !in u <==> k in m && k == (host, port);
    case RemoveStale(pid) =>
  }

  // ------------------------------------------------------------- what is read and kept

  lemma {:induction false} GoodEntriesSnoc(items: seq<Item>, item: Item)
    ensures GoodEntries(items + [item]) == GoodEntries(items) + (if item.Good? then [item.entry] else [])
  {
    if items != [] {
      assert (items + [item])[1..] == items[1..] + [item];
      GoodEntriesSnoc(items[1..], item);
    } else {
      assert (items + [item])[1..] == [];
    }
  }

  /** A read gives the well-formed objects, in order, and skips the rest. */
  lemma {:induction false} ReadsGoodItems(items: seq<Item>) returns (places: seq<nat>)
    ensures StrictlyIncreasing(places) && |places| == |GoodEntries(items)|
    ensures forall k :: 0 <= k < |places| ==>
              places[k] < |items| && items[places[k]] == Good(GoodEntries(items)[k])
    ensures forall i :: 0 <= i < |items| && items[i].Good? ==> i in places
  {
    places := [];
    if items != [] {
      var init, item := items[..|items| - 1], items[|items| - 1];
      assert items == init + [item];
      GoodEntriesSnoc(init, item);
      var before := ReadsGoodItems(init);
      places := before + if item.Good? then [|items| - 1] else [];
    }
  }

  lemma {:induction false} OthersSnoc(op: Op, es: seq<Entry>, e: Entry)
    ensures Others(op, es + [e]) == Others(op, es) + (if Owns(op, e) then [] else [e])
  {
    if es != [] {
      assert (es + [e])[1..] == es[1..] + [e];
      OthersSnoc(op, es[1..], e);
    } else {
      assert (es + [e])[1..] == [];
    }
  }

  /** An operation keeps the entries it does not own, in order. */
  lemma {:induction false} KeepsTheOthers(op: Op, es: seq<Entry>) returns (places: seq<nat>)
    ensures StrictlyIncreasing(places) && |places| == |Others(op, es)|
    ensures forall k :: 0 <= k < |places| ==>
              places[k] < |es| && !Owns(op, es[places[k]]) && Others(op, es)[k] == es[places[k]]
    ensures forall i :: 0 <= i < |es| && !Owns(op, es[i]) ==> i in places
  {
    places := [];
    if es != [] {
      var init, e := es[..|es| - 1], es[|es| - 1];
      assert es == init + [e];
      OthersSnoc(op, init, e);
      var before := KeepsTheOthers(op, init);
      places := before + if Owns(op, e) then [] else [|es| - 1];
    }
  }

  // ------------------------------------------------------------- one process at a time

  /** The file at the registry path, seen by operations that do not overlap. */
  class RegistryFile {
    var content: Option<Content>

    constructor ()
      ensures content == None
    {
      content := None;
    }

    /** What is registered, as the rewriting operations read it. */
    ghost function Registered(): seq<Entry>
      reads this
    {
      if content.Some? then Entries(content.value) else []
    }

    method Load() returns (entries: Option<seq<Entry>>)
      requires content.Some?
      ensures entries == Strict(content.value)
      ensures entries.Some?
          <==> content.value.Items?
               && forall i :: 0 <= i < |content.value.items| ==> content.value.items[i] != WrongFields
    {
      if !content.value.Items? {
        return None;
      }
      var items := content.value.items;
      var list := [];
      for i := 0 to |items|
        invariant list == GoodEntries(items[..i]) && WrongFields !in items[..i]
      {
        assert items[..i + 1] == items[..i] + [items[i]];
        GoodEntriesSnoc(items[..i], items[i]);
        match items[i]
        case NotObject =>
        case WrongFields => return None;
        case Good(entry) => list := list + [entry];
      }
      assert items[..|items|] == items;
      return Some(list);
    }

    method KeepOthers(op: Op, entries: seq<Entry>) returns (kept: seq<Entry>)
      ensures kept == Others(op, entries)
    {
      kept := [];
      for i := 0 to |entries|
        invariant kept == Others(op, entries[..i])
      {
        assert entries[..i + 1] == entries[..i] + [entries[i]];
        OthersSnoc(op, entries[..i], entries[i]);
        if !Owns(op, entries[i]) {
          kept := kept + [entries[i]];
        }
      }
      assert entries[..|entries|] == entries;
    }

    method RegisterWorker(entry: Entry)
      modifies this
      ensures content == Some(Serialized(Others(Register(entry), old(Registered())) + [entry]))
      ensures old(UniqueKeys(Registered())) ==>
                UniqueKeys(Registered()) && AsMap(Registered()) == OnMap(Register(entry), old(AsMap(Registered())))
    {
      if content.None? {
        content := Some(Blank);
      }
      ghost var c := content.value;
      var loaded := Load();
      var kept := KeepOthers(Register(entry), if loaded.Some? then loaded.value else []);
      content := Some(Serialized(kept + [entry]));
      SerializedEntries(kept + [entry]);
      if UniqueKeys(Entries(c)) {
        RewriteKeepsKeysUnique(Register(entry), c);
        RewriteIsMapOperation(Register(entry), c);
      }
    }

    /** Unregister by address or by process id; true when something was removed. */
    method Remove(op: Op) returns (removed: bool)
      requires !op.Register?
      modifies this
      ensures removed <==> exists e :: e in old(Registered()) && Owns(op, e)
      ensures content == if removed then Some(Serialized(Others(op, old(Registered())))) else old(content)
      ensures old(UniqueKeys(Registered())) ==>
                UniqueKeys(Registered()) && AsMap(Registered()) == OnMap(op, old(AsMap(Registered())))
    {
      if content.None? {
        return false;
      }
      ghost var c := content.value;
      if UniqueKeys(Entries(c)) {
        RewriteIsMapOperation(op, c);
      }
      OthersMembers(op, Entries(c));
      var loaded := Load();
      if loaded.None? {
        return false;
      }
      var kept := KeepOthers(op, loaded.value);
      if |kept| == |loaded.value| {
        return false;
      }
      RemovedSome(op, Entries(c));
      if UniqueKeys(Entries(c)) {
        RewriteKeepsKeysUnique(op, c);
      }
      SerializedEntries(kept);
      content := Some(Serialized(kept));
      return true;
    }

    /** Lenient read: objects with wrong fields are skipped. */
    method ListWorkers() returns (entries: seq<Entry>)
      ensures entries == if content.Some? && content.value.Items? then GoodEntries(content.value.items) else []
    {
      entries := [];
      if content.Some? && content.value.Items? {
        var items := content.value.items;
        for i := 0 to |items|
          invariant entries == GoodEntries(items[..i])
        {
          assert items[..i + 1] == items[..i] + [items[i]];
          GoodEntriesSnoc(items[..i], items[i]);
          if items[i].Good? {
            entries := entries + [items[i].entry];
          }
        }
        assert items[..|items|] == items;
      }
    }
  }

  lemma {:induction false} RemovedSome(op: Op, es: seq<Entry>)
    ensures |Others(op, es)| < |es| ==> exists e :: e in es && Owns(op, e)
  {
    if forall e :: e in es ==> !Owns(op, e) {
      NothingOwned(op, es);
    }
  }
}
