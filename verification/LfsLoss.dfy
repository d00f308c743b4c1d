/** How the lfs/ layer comes to link an oid whose bytes are gone. */
module LfsLoss {
  import opened LfsProtocol

  lemma {:induction false} RunAppend(s: State, a: seq<Event>, b: seq<Event>)
    requires Run(s, a) && Run(After(s, a), b)
    ensures Run(s, a + b) && After(s, a + b) == After(After(s, a), b)
    decreases |a|
  {
    if a == [] {
      assert a + b == b;
    } else {
      RunAppend(Apply(s, a[0]), a[1..], b);
      RunCons(s, a[0], a[1..] + b);
      assert [a[0]] + (a[1..] + b) == a + b;
    }
  }

  lemma Uploads(oid: Oid, size: nat)
    ensures var es := [Put(oid, size), BeginRecord(0, 1, oid, size)];
            Run(EMPTY, es)
            && After(EMPTY, es) == State(map[oid := size], map[], {}, map[0 := Recording(1, oid, size, false)])
  {
    assert Apply(Apply(EMPTY, Put(oid, size)), BeginRecord(0, 1, oid, size))
        == State(map[oid := size], map[], {}, map[0 := Recording(1, oid, size, false)]);
    RunTwo(EMPTY, Put(oid, size), BeginRecord(0, 1, oid, size));
  }

  lemma Records(oid: Oid, size: nat, s: State)
    requires s == State(map[oid := size], map[], {}, map[0 := Recording(1, oid, size, false)])
    ensures var es := [Confirm(0), CommitRecord(0)];
            Run(s, es) && After(s, es) == State(map[oid := size], map[oid := size], {(1, oid)}, map[])
  {
    assert Apply(Apply(s, Confirm(0)), CommitRecord(0))
        == State(map[oid := size], map[oid := size], {(1, oid)}, map[]);
    RunTwo(s, Confirm(0), CommitRecord(0));
  }

  lemma UnlinksAndClaims(oid: Oid, size: nat, s: State)
    requires s == State(map[oid := size], map[oid := size], {(1, oid)}, map[])
    ensures var es := [Unlink({(1, oid)}), ClaimOrphan(0, oid)];
            Run(s, es)
            && After(s, es) == State(map[oid := size], map[oid := size], {}, map[0 := Collecting(oid, false, Claimed)])
  {
    assert Apply(Apply(s, Unlink({(1, oid)})), ClaimOrphan(0, oid))
        == State(map[oid := size], map[oid := size], {}, map[0 := Collecting(oid, false, Claimed)]);
    RunTwo(s, Unlink({(1, oid)}), ClaimOrphan(0, oid));
  }

  lemma RemovesAndDies(oid: Oid, size: nat, s: State)
    requires s == State(map[oid := size], map[oid := size], {}, map[0 := Collecting(oid, false, Claimed)])
    ensures var es := [RemoveBytes(0), Abort(0)];
            Run(s, es) && After(s, es) == State(map[], map[oid := size], {}, map[])
  {
    assert Apply(Apply(s, RemoveBytes(0)), Abort(0)) == State(map[], map[oid := size], {}, map[]);
    RunTwo(s, RemoveBytes(0), Abort(0));
  }

  /** The row that outlives its bytes: repository 1 uploads, drops its link, and gc is cut off mid-delete. */
  lemma PhantomRow(oid: Oid, size: nat) returns (es: seq<Event>)
    ensures Run(EMPTY, es) && After(EMPTY, es) == State(map[], map[oid := size], {}, map[])
  {
    var up := map[oid := size];
    var s2 := State(up, map[], {}, map[0 := Recording(1, oid, size, false)]);
    var s4 := State(up, up, {(1, oid)}, map[]);
    var s6 := State(up, up, {}, map[0 := Collecting(oid, false, Claimed)]);
    Uploads(oid, size);
    Records(oid, size, s2);
    UnlinksAndClaims(oid, size, s4);
    RemovesAndDies(oid, size, s6);
    es := [RemoveBytes(0), Abort(0)];
    RunAppend(s4, [Unlink({(1, oid)}), ClaimOrphan(0, oid)], es);
    es := [Unlink({(1, oid)}), ClaimOrphan(0, oid)] + es;
    RunAppend(s2, [Confirm(0), CommitRecord(0)], es);
    es := [Confirm(0), CommitRecord(0)] + es;
    RunAppend(EMPTY, [Put(oid, size), BeginRecord(0, 1, oid, size)], es);
    es := [Put(oid, size), BeginRecord(0, 1, oid, size)] + es;
  }

  /**
    The promise fails otherwise: from the empty instance a run reaches a state in which
    repository 2 is linked to an oid whose bytes are nowhere. The row survived a delete
    cut off after the bytes went, and a pushed pointer declaring its size earned the link.
  */
  lemma InterruptedDeleteLosesALinkedObject(oid: Oid, size: nat)
    ensures exists es :: Run(EMPTY, es) && (2, oid) in After(EMPTY, es).links && oid !in After(EMPTY, es).stored
  {
    var before := PhantomRow(oid, size);
    var s := After(EMPTY, before);
    var declared := map[oid := {size}];
    assert Entitled(s, declared) == {oid} && (set o | o in declared && o in s.rows) == {oid};
    RunTwo(s, BeginLink(0, 2, declared), CommitLink(0));
    var link := [BeginLink(0, 2, declared), CommitLink(0)];
    RunAppend(EMPTY, before, link);
    assert Run(EMPTY, before + link);
  }
}
