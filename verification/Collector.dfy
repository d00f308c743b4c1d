/**
  The passes of `thinkingface gc` over one instance, with nobody else moving: what each
  removes, what it leaves, and what it reports. LfsProtocol and BlobLedger say what keeps
  the same deletes safe beside live traffic.
*/
module Collector {
  import opened ObjectKeys
  import LfsProtocol

  /** One stored object; `updated` is when it was last written. */
  datatype Object = Object(size: nat, updated: int)
  datatype Listed = Listed(key: Key, size: nat, updated: int)
  datatype LfsRow = LfsRow(oid: string, size: nat)

  datatype Outcome = Deleted | Skipped | Failed

  /** The tally a pass prints. A pass with failures returns an error. */
  datatype Report = Report(deleted: nat, skipped: nat, failed: nat, bytes: nat) {
    function Add(out: Outcome, size: nat): Report {
      match out
      case Deleted => this.(deleted := deleted + 1, bytes := bytes + size)
      case Skipped => this.(skipped := skipped + 1)
      case Failed => this.(failed := failed + 1)
    }
  }

  const NOTHING: Report := Report(0, 0, 0, 0)

  function Oids(rows: seq<LfsRow>): set<string> {
    set r <- rows :: r.oid
  }

  predicate DistinctOids(rows: seq<LfsRow>) {
    forall i, j :: 0 <= i < j < |rows| ==> rows[i].oid != rows[j].oid
  }

  predicate DistinctKeys(objects: seq<Listed>) {
    forall i, j :: 0 <= i < j < |objects| ==> objects[i].key != objects[j].key
  }

  function LinkedOids(links: set<(nat, string)>): set<string> {
    set l <- links :: l.1
  }

  /** What a pass reports about candidates whose fates are v. */
  function Tally<T>(cands: seq<T>, size: T -> nat, v: T -> Outcome): (rep: Report)
    ensures rep.deleted + rep.skipped + rep.failed == |cands|
  {
    if cands == [] then NOTHING
    else
      var rest, c := Tally(cands[..|cands| - 1], size, v), cands[|cands| - 1];
      rest.Add(v(c), size(c))
  }

  /** The candidates of one fate. */
  function Fating<T>(cands: seq<T>, v: T -> Outcome, out: Outcome): seq<T> {
    if cands == [] then []
    else
      var c := cands[|cands| - 1];
      Fating(cands[..|cands| - 1], v, out) + if v(c) == out then [c] else []
  }

  function TotalSize<T>(cands: seq<T>, size: T -> nat): nat {
    if cands == [] then 0 else TotalSize(cands[..|cands| - 1], size) + size(cands[|cands| - 1])
  }

  lemma TotalSizeSnoc<T>(cands: seq<T>, c: T, size: T -> nat)
    ensures TotalSize(cands + [c], size) == TotalSize(cands, size) + size(c)
  {
    assert (cands + [c])[..|cands|] == cands;
  }

  /** A report counts each candidate once, under its fate, and its bytes are those of the deleted. */
  lemma {:induction false} TallyAddsUp<T>(cands: seq<T>, size: T -> nat, v: T -> Outcome)
    ensures var rep := Tally(cands, size, v);
            && rep.deleted == |Fating(cands, v, Deleted)| && rep.bytes == TotalSize(Fating(cands, v, Deleted), size)
            && rep.skipped == |Fating(cands, v, Skipped)| && rep.failed == |Fating(cands, v, Failed)|
            && rep.deleted + rep.skipped + rep.failed == |cands|
  {
    if cands != [] {
      var front, c := cands[..|cands| - 1], cands[|cands| - 1];
      TallyAddsUp(front, size, v);
      TotalSizeSnoc(Fating(front, v, Deleted), c, size);
      assert v(c) != Deleted ==> Fating(cands, v, Deleted) == Fating(front, v, Deleted);
    }
  }

  lemma TallyGrow<T>(cands: seq<T>, i: nat, size: T -> nat, v: T -> Outcome)
    requires i < |cands|
    ensures Tally(cands[..i + 1], size, v) == Tally(cands[..i], size, v).Add(v(cands[i]), size(cands[i]))
  {
    assert cands[..i + 1][..i] == cands[..i];
  }

  /** store.OrphanedLFSObjects. */
  method OrphanedRows(all: seq<LfsRow>, referenced: set<string>) returns (out: seq<LfsRow>)
    requires DistinctOids(all)
    ensures DistinctOids(out)
    ensures forall r :: r in out <==> r in all && r.oid !in referenced
  {
    out := [];
    for i := 0 to |all|
      invariant DistinctOids(out)
      invariant forall r :: r in out <==> r in all[..i] && r.oid !in referenced
    {
      if all[i].oid !in referenced {
        out := out + [all[i]];
      }
    }
  }

  /** A lfs/ object no row accounts for: canonical home, untracked, older than the cutoff. */
  predicate Untracked(o: Listed, tracked: set<string>, cutoff: int) {
    Base(o.key) !in tracked && LfsKey(Base(o.key)) == o.key && o.updated < cutoff
  }

  /** store.UntrackedLFSObjects. */
  method UntrackedObjects(objects: seq<Listed>, tracked: seq<LfsRow>, cutoff: int) returns (out: seq<Listed>)
    requires DistinctKeys(objects)
    ensures DistinctKeys(out)
    ensures forall o :: o in out <==> o in objects && Untracked(o, Oids(tracked), cutoff)
  {
    out := [];
    for i := 0 to |objects|
      invariant DistinctKeys(out) && forall o <- out :: o in objects[..i]
      invariant forall o :: o in out <==> o in objects[..i] && Untracked(o, Oids(tracked), cutoff)
    {
      assert forall o <- objects[..i] :: o.key != objects[i].key;
      if Untracked(objects[i], Oids(tracked), cutoff) {
        out := out + [objects[i]];
      }
    }
  }

  /** No key is offered to both LFS passes, whatever was listed and whatever the rows said. */
  lemma CandidatesAreDisjoint(all: seq<LfsRow>, objects: seq<Listed>, cutoff: int, r: LfsRow, o: Listed)
    requires r in all && Name(r.oid) && o in objects && Untracked(o, Oids(all), cutoff)
    ensures LfsKey(r.oid) != o.key
  {
    BaseOfSharded(LFS_PREFIX, r.oid);
  }

  /** The oids whose bytes sit at their canonical key. */
  function LfsStored(bucket: map<Key, Object>): set<string> {
    set k <- bucket | HasPrefix(k, LFS_PREFIX) && LfsKey(Base(k)) == k :: Base(k)
  }

  lemma StoredWithout(bucket: map<Key, Object>, oid: string)
    requires Name(oid)
    ensures LfsStored(bucket - {LfsKey(oid)}) == LfsStored(bucket) - {oid}
  {
    BaseOfSharded(LFS_PREFIX, oid);
  }

  /** The run of protocol steps that one undisturbed orphan delete is. */
  function OrphanSteps(out: Outcome, oid: string): seq<LfsProtocol.Event> {
    match out
    case Deleted => [LfsProtocol.ClaimOrphan(0, oid), LfsProtocol.RemoveBytes(0), LfsProtocol.CommitCollect(0)]
    case Failed => [LfsProtocol.ClaimOrphan(0, oid), LfsProtocol.RemoveFailed(0, false)]
    case Skipped => []
  }

  lemma OrphanRun(s: LfsProtocol.State, oid: string, out: Outcome)
    requires s.open == map[]
    requires !out.Skipped? ==> oid in s.rows && !LfsProtocol.Linked(s, oid)
    ensures LfsProtocol.Run(s, OrphanSteps(out, oid))
    ensures LfsProtocol.After(s, OrphanSteps(out, oid)) ==
            if out.Deleted? then s.(stored := s.stored - {oid}, rows := s.rows - {oid}) else s
  {
    var claimed := s.(open := map[0 := LfsProtocol.Collecting(oid, false, LfsProtocol.Claimed)]);
    match out
    case Deleted =>
      var removed := s.(stored := s.stored - {oid},
                        open := map[0 := LfsProtocol.Collecting(oid, false, LfsProtocol.Removed)]);
      var done := s.(stored := s.stored - {oid}, rows := s.rows - {oid});
      assert LfsProtocol.Apply(s, LfsProtocol.ClaimOrphan(0, oid)) == claimed;
      assert LfsProtocol.Apply(claimed, LfsProtocol.RemoveBytes(0)) == removed;
      assert LfsProtocol.Apply(removed, LfsProtocol.CommitCollect(0)) == done;
      LfsProtocol.RunTwo(claimed, LfsProtocol.RemoveBytes(0), LfsProtocol.CommitCollect(0));
      LfsProtocol.RunCons(s, LfsProtocol.ClaimOrphan(0, oid), OrphanSteps(out, oid)[1..]);
    case Failed =>
      assert LfsProtocol.Apply(s, LfsProtocol.ClaimOrphan(0, oid)) == claimed;
      assert LfsProtocol.Apply(claimed, LfsProtocol.RemoveFailed(0, false)) == s;
      LfsProtocol.RunTwo(s, LfsProtocol.ClaimOrphan(0, oid), LfsProtocol.RemoveFailed(0, false));
    case Skipped =>
  }

  /** The fate of one orphan candidate, decided by the state it is claimed in. */
  function OrphanFate(rows: map<string, nat>, links: set<(nat, string)>, broken: set<Key>, oid: string): Outcome {
    if oid !in rows || oid in LinkedOids(links) then Skipped
    else if LfsKey(oid) in broken then Failed
    else Deleted
  }

  /** The fate of one untracked candidate. */
  function UntrackedFate(rows: map<string, nat>, broken: set<Key>, key: Key): Outcome {
    if Base(key) in rows then Skipped else if key in broken then Failed else Deleted
  }

  /** The lfs/ layer as the step protocol sees it while no transaction is open. */
  function Layer(bucket: map<Key, Object>, rows: map<string, nat>, links: set<(nat, string)>): LfsProtocol.State {
    LfsProtocol.State(map o | o in LfsStored(bucket) :: bucket[LfsKey(o)].size, rows, links, map[])
  }

  /** What DeleteOrphaned does to the instance is a run of the concurrent protocol's own steps. */
  lemma OrphanDeleteIsARun(bucket: map<Key, Object>, rows: map<string, nat>, links: set<(nat, string)>,
                           broken: set<Key>, oid: string)
    requires Name(oid)
    ensures var out := OrphanFate(rows, links, broken, oid);
            && LfsProtocol.Run(Layer(bucket, rows, links), OrphanSteps(out, oid))
            && LfsProtocol.After(Layer(bucket, rows, links), OrphanSteps(out, oid)) ==
               if out.Deleted? then Layer(bucket - {LfsKey(oid)}, rows - {oid}, links) else Layer(bucket, rows, links)
  {
    var s := Layer(bucket, rows, links);
    assert LfsProtocol.Linked(s, oid) <==> oid in LinkedOids(links);
    OrphanRun(s, oid, OrphanFate(rows, links, broken, oid));
    StoredWithout(bucket, oid);
    BaseOfSharded(LFS_PREFIX, oid);
    assert (s.stored - {oid}).Keys == LfsStored(bucket - {LfsKey(oid)});
  }

  function RowSize(r: LfsRow): nat { r.size }

  function ListedSize(o: Listed): nat { o.size }

  lemma MinusTwice<K, V>(m: map<K, V>, a: set<K>, b: set<K>)
    ensures m - a - b == m - (a + b)
  {
  }

  /** The oids of the candidates a fate deletes. */
  ghost function Fated(cands: seq<LfsRow>, v: LfsRow -> Outcome): set<string> {
    set r <- cands | v(r).Deleted? :: r.oid
  }

  ghost function KeysOf(oids: set<string>): set<Key> {
    set o <- oids :: LfsKey(o)
  }

  /** The instance and the tally after sweeping the candidates in order. */
  datatype Swept = Swept(rows: map<string, nat>, bucket: map<Key, Object>, rep: Report)

  function Sweep(rows: map<string, nat>, bucket: map<Key, Object>, links: set<(nat, string)>,
                 broken: set<Key>, cands: seq<LfsRow>): Swept
  {
    if cands == [] then Swept(rows, bucket, NOTHING) else
      var s, c := Sweep(rows, bucket, links, broken, cands[..|cands| - 1]), cands[|cands| - 1];
      var out := OrphanFate(s.rows, links, broken, c.oid);
      Swept(if out.Deleted? then s.rows - {c.oid} else s.rows,
            if out.Deleted? then s.bucket - {LfsKey(c.oid)} else s.bucket,
            s.rep.Add(out, c.size))
  }

  lemma FatedSnoc(front: seq<LfsRow>, c: LfsRow, fate: LfsRow -> Outcome)
    requires DistinctOids(front + [c])
    ensures var more := if fate(c).Deleted? then {c.oid} else {};
            && c.oid !in Fated(front, fate) && DistinctOids(front)
            && Fated(front + [c], fate) == Fated(front, fate) + more
            && KeysOf(Fated(front + [c], fate)) == KeysOf(Fated(front, fate)) + KeysOf(more)
            && KeysOf(more) == if fate(c).Deleted? then {LfsKey(c.oid)} else {}
  {
    var cands := front + [c];
    assert forall i :: 0 <= i < |front| ==> cands[i] == front[i];
    assert cands[|front|] == c;
  }

  /** Distinct candidates do not disturb one another, so each one's fate is decided up front. */
  lemma {:induction false} SweepMeaning(rows: map<string, nat>, bucket: map<Key, Object>, links: set<(nat, string)>,
                                        broken: set<Key>, cands: seq<LfsRow>)
    requires DistinctOids(cands)
    ensures var fate := (r: LfsRow) => OrphanFate(rows, links, broken, r.oid);
            Sweep(rows, bucket, links, broken, cands) ==
            Swept(rows - Fated(cands, fate), bucket - KeysOf(Fated(cands, fate)), Tally(cands, RowSize, fate))
  {
    var fate := (r: LfsRow) => OrphanFate(rows, links, broken, r.oid);
    if cands != [] {
      var front, c := cands[..|cands| - 1], cands[|cands| - 1];
      SweepMeaning(rows, bucket, links, broken, front);
      var more := if fate(c).Deleted? then {c.oid} else {};
      FatedSnoc(front, c, fate);
      assert cands == front + [c];
      var s := Sweep(rows, bucket, links, broken, front);
      assert OrphanFate(s.rows, links, broken, c.oid) == fate(c);
      MinusTwice(rows, Fated(front, fate), more);
      MinusTwice(bucket, KeysOf(Fated(front, fate)), KeysOf(more));
      assert Tally(cands, RowSize, fate) == Tally(front, RowSize, fate).Add(fate(c), c.size);
    }
  }

  /** untrackedLFSGrace, in seconds. */
  const UNTRACKED_GRACE: int := 24 * 3600

  /** The lfs/ keys a full run removes: canonical, deletable, and either unlinked or leaked long enough ago. */
  predicate Garbage(rows: map<string, nat>, bucket: map<Key, Object>, links: set<(nat, string)>,
                    broken: set<Key>, cutoff: int, k: Key)
  {
    && k in bucket && k !in broken && LfsKey(Base(k)) == k
    && if Base(k) in rows then Base(k) !in LinkedOids(links) else bucket[k].updated < cutoff
  }

  ghost predicate LfsCollected(rows: map<string, nat>, bucket: map<Key, Object>,
                               rows': map<string, nat>, bucket': map<Key, Object>,
                               links: set<(nat, string)>, broken: set<Key>, cutoff: int)
  {
    && (forall o :: o in rows' <==> o in rows && (o in LinkedOids(links) || LfsKey(o) in broken))
    && (forall o <- rows' :: o in rows && rows'[o] == rows[o])
    && (forall k :: k in bucket' <==> k in bucket && !Garbage(rows, bucket, links, broken, cutoff, k))
    && (forall k <- bucket' :: k in bucket && bucket'[k] == bucket[k])
  }

  /** A listing of the rows: each once, with its size. */
  ghost predicate ListsRows(all: seq<LfsRow>, rows: map<string, nat>) {
    forall r :: r in all <==> r.oid in rows && rows[r.oid] == r.size
  }

  ghost predicate ListsLfs(objects: seq<Listed>, bucket: map<Key, Object>) {
    forall o :: o in objects <==>
      HasPrefix(o.key, LFS_PREFIX) && o.key in bucket && bucket[o.key] == Object(o.size, o.updated)
  }

  lemma FatedOfListing(rows: map<string, nat>, links: set<(nat, string)>, broken: set<Key>,
                       all: seq<LfsRow>, cands: seq<LfsRow>, o: string)
    requires ListsRows(all, rows)
    requires forall r :: r in cands <==> r in all && r.oid !in LinkedOids(links)
    ensures o in Fated(cands, (r: LfsRow) => OrphanFate(rows, links, broken, r.oid)) <==>
            o in rows && o !in LinkedOids(links) && LfsKey(o) !in broken
  {
    if o in rows { assert LfsRow(o, rows[o]) in all; }
  }

  lemma RowsLeft(rows: map<string, nat>, links: set<(nat, string)>, broken: set<Key>,
                 all: seq<LfsRow>, cands: seq<LfsRow>, rows': map<string, nat>)
    requires ListsRows(all, rows)
    requires forall r :: r in cands <==> r in all && r.oid !in LinkedOids(links)
    requires rows' == rows - Fated(cands, (r: LfsRow) => OrphanFate(rows, links, broken, r.oid))
    ensures forall o :: o in rows' <==> o in rows && (o in LinkedOids(links) || LfsKey(o) in broken)
    ensures forall o <- rows' :: o in rows && rows'[o] == rows[o]
  {
    forall o ensures o in rows' <==> o in rows && (o in LinkedOids(links) || LfsKey(o) in broken) {
      FatedOfListing(rows, links, broken, all, cands, o);
    }
  }

  /** The keys of the untracked candidates a sweep over these rows deletes. */
  ghost function Leaked(cands: seq<Listed>, rows: map<string, nat>, broken: set<Key>): set<Key> {
    set o <- cands | UntrackedFate(rows, broken, o.key).Deleted? :: o.key
  }

  /** The keys the unreferenced pass frees are the canonical keys of the deletable orphans. */
  lemma FreedKey(rows: map<string, nat>, bucket: map<Key, Object>, links: set<(nat, string)>, broken: set<Key>,
                cutoff: int, all: seq<LfsRow>, cands: seq<LfsRow>, k: Key)
    requires forall o <- rows :: Name(o)
    requires ListsRows(all, rows)
    requires forall r :: r in cands <==> r in all && r.oid !in LinkedOids(links)
    ensures k in KeysOf(Fated(cands, (r: LfsRow) => OrphanFate(rows, links, broken, r.oid))) <==>
            LfsKey(Base(k)) == k && Base(k) in rows && Base(k) !in LinkedOids(links) && k !in broken
  {
    var gone := Fated(cands, (r: LfsRow) => OrphanFate(rows, links, broken, r.oid));
    FatedOfListing(rows, links, broken, all, cands, Base(k));
    if k in KeysOf(gone) {
      var o :| o in gone && LfsKey(o) == k;
      FatedOfListing(rows, links, broken, all, cands, o);
      BaseOfSharded(LFS_PREFIX, o);
    }
  }

  lemma KeysLeft(rows: map<string, nat>, bucket: map<Key, Object>, links: set<(nat, string)>, broken: set<Key>,
                 cutoff: int, all: seq<LfsRow>, objects: seq<Listed>, cands: seq<LfsRow>, leaked: seq<Listed>,
                 rows': map<string, nat>, bucket1: map<Key, Object>, bucket2: map<Key, Object>)
    requires forall o <- rows :: Name(o)
    requires ListsRows(all, rows) && ListsLfs(objects, bucket)
    requires forall r :: r in cands <==> r in all && r.oid !in LinkedOids(links)
    requires forall o :: o in leaked <==> o in objects && Untracked(o, Oids(all), cutoff)
    requires rows'.Keys <= rows.Keys
    requires bucket1 == bucket - KeysOf(Fated(cands, (r: LfsRow) => OrphanFate(rows, links, broken, r.oid)))
    requires bucket2 == bucket1 - Leaked(leaked, rows', broken)
    ensures forall k :: k in bucket2 <==> k in bucket && !Garbage(rows, bucket, links, broken, cutoff, k)
    ensures forall k <- bucket2 :: k in bucket && bucket2[k] == bucket[k]
  {
    assert Oids(all) == rows.Keys by {
      forall o <- rows ensures o in Oids(all) { assert LfsRow(o, rows[o]) in all; }
    }
    forall k ensures k in bucket2 <==> k in bucket && !Garbage(rows, bucket, links, broken, cutoff, k) {
      FreedKey(rows, bucket, links, broken, cutoff, all, cands, k);
      if k in bucket {
        var o := Listed(k, bucket[k].size, bucket[k].updated);
        assert o in leaked <==> LfsKey(Base(k)) == k && Base(k) !in rows && bucket[k].updated < cutoff;
      }
    }
  }

  lemma PassesCollect(rows: map<string, nat>, bucket: map<Key, Object>, links: set<(nat, string)>, broken: set<Key>,
                      cutoff: int, all: seq<LfsRow>, objects: seq<Listed>, cands: seq<LfsRow>, leaked: seq<Listed>,
                      rows': map<string, nat>, bucket1: map<Key, Object>, bucket2: map<Key, Object>)
    requires forall o <- rows :: Name(o)
    requires ListsRows(all, rows) && ListsLfs(objects, bucket)
    requires forall r :: r in cands <==> r in all && r.oid !in LinkedOids(links)
    requires forall o :: o in leaked <==> o in objects && Untracked(o, Oids(all), cutoff)
    requires rows' == rows - Fated(cands, (r: LfsRow) => OrphanFate(rows, links, broken, r.oid))
    requires bucket1 == bucket - KeysOf(Fated(cands, (r: LfsRow) => OrphanFate(rows, links, broken, r.oid)))
    requires bucket2 == bucket1 - Leaked(leaked, rows', broken)
    ensures LfsCollected(rows, bucket, rows', bucket2, links, broken, cutoff)
  {
    RowsLeft(rows, links, broken, all, cands, rows');
    KeysLeft(rows, bucket, links, broken, cutoff, all, objects, cands, leaked, rows', bucket1, bucket2);
  }

  /**
    After a failure-free run over an instance whose leaked objects are past their grace, the
    layer is the linked set and nothing else: its rows, and the bytes at its keys.
  */
  lemma FullRunLeavesTheLinkedSet(rows: map<string, nat>, bucket: map<Key, Object>,
                                  rows': map<string, nat>, bucket': map<Key, Object>,
                                  links: set<(nat, string)>, cutoff: int)
    requires LfsCollected(rows, bucket, rows', bucket', links, {}, cutoff)
    requires forall o <- LinkedOids(links) :: Name(o) && o in rows && LfsKey(o) in bucket
    requires forall k <- bucket :: HasPrefix(k, LFS_PREFIX) ==>
               LfsKey(Base(k)) == k && (Base(k) !in rows ==> bucket[k].updated < cutoff)
    ensures rows'.Keys == LinkedOids(links) && LfsStored(bucket') == LinkedOids(links)
    ensures forall k :: k in bucket' && HasPrefix(k, LFS_PREFIX) ==> exists o <- LinkedOids(links) :: k == LfsKey(o)
    ensures forall o <- LinkedOids(links) :: rows'[o] == rows[o] && bucket'[LfsKey(o)] == bucket[LfsKey(o)]
  {
    forall o <- LinkedOids(links) ensures o in LfsStored(bucket') {
      BaseOfSharded(LFS_PREFIX, o);
      assert LfsKey(o) in bucket' && Base(LfsKey(o)) == o;
    }
  }

  /**
    However stale the listings were: an oid that is linked now keeps its row and its bytes through
    both passes, whatever candidates they were given.
  */
  lemma LinkedObjectsAreSpared(rows: map<string, nat>, bucket: map<Key, Object>, links: set<(nat, string)>,
                               broken: set<Key>, cands: seq<LfsRow>, listed: seq<Listed>, oid: string)
    requires oid in rows && oid in LinkedOids(links) && Name(oid) && LfsKey(oid) in bucket
    requires DistinctOids(cands) && forall c <- cands :: Name(c.oid)
    ensures var swept := Sweep(rows, bucket, links, broken, cands);
            var after := swept.bucket - Leaked(listed, swept.rows, broken);
            && oid in swept.rows && swept.rows[oid] == rows[oid]
            && LfsKey(oid) in after && after[LfsKey(oid)] == bucket[LfsKey(oid)]
  {
    SweepMeaning(rows, bucket, links, broken, cands);
    BaseOfSharded(LFS_PREFIX, oid);
    var fate := (r: LfsRow) => OrphanFate(rows, links, broken, r.oid);
    forall c <- cands | LfsKey(c.oid) == LfsKey(oid) ensures !fate(c).Deleted? {
      BaseOfSharded(LFS_PREFIX, c.oid);
    }
  }

  lemma LeakedGrow(cands: seq<Listed>, i: nat, rows: map<string, nat>, broken: set<Key>, bucket: map<Key, Object>)
    requires i < |cands|
    ensures var gone := Leaked(cands[..i], rows, broken);
            bucket - Leaked(cands[..i + 1], rows, broken)
            == if UntrackedFate(rows, broken, cands[i].key).Deleted?
               then bucket - gone - {cands[i].key} else bucket - gone
  {
    assert cands[..i + 1] == cands[..i] + [cands[i]];
    var gone, more := Leaked(cands[..i], rows, broken), Leaked(cands[..i + 1], rows, broken);
    assert more == if UntrackedFate(rows, broken, cands[i].key).Deleted? then gone + {cands[i].key} else gone;
    MinusTwice(bucket, gone, {cands[i].key});
  }

  class Instance {
    var bucket: map<Key, Object>
    var rows: map<string, nat>          // lfs_objects
    var links: set<(nat, string)>       // repo_lfs_objects
    const broken: set<Key>              // keys whose delete the bucket answers with an error

    constructor (broken: set<Key>)
      ensures bucket == map[] && rows == map[] && links == {} && this.broken == broken
    {
      bucket, rows, links := map[], map[], {};
      this.broken := broken;
    }

    method Delete(key: Key) returns (ok: bool)
      modifies this`bucket
      ensures ok == (key !in broken)
      ensures bucket == if ok then old(bucket) - {key} else old(bucket)
    {
      ok := key !in broken;
      if ok { bucket := bucket - {key}; }
    }

    /** DeleteOrphanedLFSObject: claim the row, re-check the links, bytes first, then the row. */
    method DeleteOrphaned(oid: string) returns (out: Outcome)
      requires Name(oid)
      modifies this`bucket, this`rows
      ensures out == OrphanFate(old(rows), links, broken, oid)
      ensures rows == if out.Deleted? then old(rows) - {oid} else old(rows)
      ensures bucket == if out.Deleted? then old(bucket) - {LfsKey(oid)} else old(bucket)
    {
      if oid !in rows || oid in LinkedOids(links) { return Skipped; }
      var ok := Delete(LfsKey(oid));
      if !ok { return Failed; }
      rows := rows - {oid};
      return Deleted;
    }

    /** DeleteUntrackedLFSObject: the claim is an inserted row, gone again either way. */
    method DeleteUntracked(key: Key) returns (out: Outcome)
      modifies this`bucket, this`rows
      ensures out == UntrackedFate(old(rows), broken, key)
      ensures rows == old(rows)
      ensures bucket == if out.Deleted? then old(bucket) - {key} else old(bucket)
    {
      var oid := Base(key);
      if oid in rows { return Skipped; }
      rows := rows[oid := 0];
      var ok := Delete(key);
      rows := rows - {oid};
      return if ok then Deleted else Failed;
    }

    method ListRows() returns (all: seq<LfsRow>)
      ensures DistinctOids(all)
      ensures forall r :: r in all <==> r.oid in rows && rows[r.oid] == r.size
    {
      all := [];
      var rest := rows.Keys;
      while rest != {}
        invariant rest <= rows.Keys && DistinctOids(all)
        invariant forall r :: r in all <==> r.oid in rows.Keys - rest && rows[r.oid] == r.size
      {
        var oid :| oid in rest;
        rest := rest - {oid};
        assert forall r <- all :: r.oid != oid;
        all := all + [LfsRow(oid, rows[oid])];
      }
    }

    method List(prefix: Key) returns (objects: seq<Listed>)
      ensures DistinctKeys(objects)
      ensures forall o :: o in objects <==>
        HasPrefix(o.key, prefix) && o.key in bucket && bucket[o.key] == Object(o.size, o.updated)
    {
      objects := [];
      var rest := bucket.Keys;
      while rest != {}
        invariant rest <= bucket.Keys && DistinctKeys(objects)
        invariant forall o :: o in objects <==>
          HasPrefix(o.key, prefix) && o.key in bucket.Keys - rest && bucket[o.key] == Object(o.size, o.updated)
      {
        var key :| key in rest;
        rest := rest - {key};
        assert forall o <- objects :: o.key != key;
        if HasPrefix(key, prefix) {
          objects := objects + [Listed(key, bucket[key].size, bucket[key].updated)];
        }
      }
    }

    /**
      The unreferenced pass over any snapshot, however stale: each candidate is deleted,
      skipped because it gained a link or lost its row, or fails and keeps both its bytes
      and its row; nothing else moves, and the report counts each candidate once.
    */
    method CollectUnreferenced(all: seq<LfsRow>, referenced: set<string>, execute: bool)
      returns (cands: seq<LfsRow>, rep: Report)
      requires DistinctOids(all) && forall r <- all :: Name(r.oid)
      modifies this`bucket, this`rows
      ensures DistinctOids(cands) && forall r :: r in cands <==> r in all && r.oid !in referenced
      ensures !execute ==> rep == NOTHING && bucket == old(bucket) && rows == old(rows)
      ensures execute ==>
        var was, linked := old(rows), links;
        var fate := (r: LfsRow) => OrphanFate(was, linked, broken, r.oid);
        && rows == was - Fated(cands, fate) && bucket == old(bucket) - KeysOf(Fated(cands, fate))
        && rep == Tally(cands, RowSize, fate)
    {
      cands := OrphanedRows(all, referenced);
      rep := NOTHING;
      if !execute { return; }
      SweepMeaning(rows, bucket, links, broken, cands);
      rep := SweepOrphans(cands);
    }

    /** Its deleting half, one candidate at a time. */
    method SweepOrphans(cands: seq<LfsRow>) returns (rep: Report)
      requires forall r <- cands :: Name(r.oid)
      modifies this`bucket, this`rows
      ensures Swept(rows, bucket, rep) == Sweep(old(rows), old(bucket), links, broken, cands)
    {
      rep := NOTHING;
      for i := 0 to |cands|
        invariant Swept(rows, bucket, rep) == Sweep(old(rows), old(bucket), links, broken, cands[..i])
      {
        assert cands[..i + 1][..i] == cands[..i];
        var out := DeleteOrphaned(cands[i].oid);
        rep := rep.Add(out, cands[i].size);
      }
      assert cands[..|cands|] == cands;
    }

    /** The untracked pass over any snapshot: the rows come out as they went in. */
    method CollectUntracked(cands: seq<Listed>, execute: bool) returns (rep: Report)
      requires DistinctKeys(cands)
      modifies this`bucket, this`rows
      ensures rows == old(rows)
      ensures !execute ==> rep == NOTHING && bucket == old(bucket)
      ensures execute ==>
        && bucket == old(bucket) - Leaked(cands, rows, broken)
        && var now := rows; rep == Tally(cands, ListedSize, (o: Listed) => UntrackedFate(now, broken, o.key))
    {
      rep := NOTHING;
      if !execute { return; }
      ghost var was := rows;
      ghost var fate := (o: Listed) => UntrackedFate(was, broken, o.key);
      for i := 0 to |cands|
        invariant rows == was
        invariant bucket == old(bucket) - Leaked(cands[..i], was, broken)
        invariant rep == Tally(cands[..i], ListedSize, fate)
      {
        TallyGrow(cands, i, ListedSize, fate);
        LeakedGrow(cands, i, was, broken, old(bucket));
        var out := DeleteUntracked(cands[i].key);
        rep := rep.Add(out, cands[i].size);
      }
      assert cands[..|cands|] == cands;
    }

    /**
      gcLFS: list the bucket, then read the rows and the links, then run both passes on that
      snapshot. With nobody else moving it removes exactly the garbage the bucket lets go.
    */
    method CollectLfs(now: int, execute: bool) returns (unreferenced: Report, untracked: Report)
      requires forall o <- rows :: Name(o)
      modifies this`bucket, this`rows
      ensures !execute ==> bucket == old(bucket) && rows == old(rows)
      ensures execute ==>
        LfsCollected(old(rows), old(bucket), rows, bucket, links, broken, now - 24 * 3600)
    {
      var objects := List(LFS_PREFIX);
      var all := ListRows();
      var referenced := LinkedOids(links);
      var cutoff := now - UNTRACKED_GRACE;
      var leaked := UntrackedObjects(objects, all, cutoff);
      ghost var cands;
      cands, unreferenced := CollectUnreferenced(all, referenced, execute);
      ghost var bucket1 := bucket;
      untracked := CollectUntracked(leaked, execute);
      if execute {
        ghost var was := old(rows);
        PassesCollect(was, old(bucket), links, broken, cutoff, all, objects, cands, leaked, rows, bucket1, bucket);
      }
    }
  }
}
