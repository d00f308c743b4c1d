/** Content-addressed keys and the reduction from a key back to the identifier it stores. */
module ObjectKeys {
  type Key = string

  const LFS_PREFIX: Key := "lfs/"

  function Sharded(prefix: Key, id: string): Key {
    if |id| < 4 then prefix + id else prefix + id[..2] + "/" + id[2..4] + "/" + id
  }

  function LfsKey(oid: string): Key {
    Sharded(LFS_PREFIX, oid)
  }

  predicate HasPrefix(k: Key, prefix: Key) {
    prefix <= k
  }

  function TrimSlashes(k: Key): Key {
    if k != "" && k[|k| - 1] == '/' then TrimSlashes(k[..|k| - 1]) else k
  }

  function AfterSlash(k: Key): Key {
    if k == "" then ""
    else if k[|k| - 1] == '/' then ""
    else AfterSlash(k[..|k| - 1]) + [k[|k| - 1]]
  }

  /** Go's path.Base. */
  function Base(k: Key): string {
    if k == "" then "."
    else if TrimSlashes(k) == "" then "/"
    else AfterSlash(TrimSlashes(k))
  }

  /** What an oid or a blob sha is for these keys: non-empty and free of slashes. */
  predicate Name(id: string) {
    id != "" && '/' !in id
  }

  lemma {:induction false} AfterLastSlash(dir: Key, id: string)
    requires '/' !in id && dir != "" && dir[|dir| - 1] == '/'
    ensures AfterSlash(dir + id) == id
    decreases |id|
  {
    if id == "" {
      assert dir + id == dir;
    } else {
      var front := id[..|id| - 1];
      AfterLastSlash(dir, front);
      assert (dir + id)[..|dir + id| - 1] == dir + front;
      assert (dir + id)[|dir + id| - 1] == id[|id| - 1];
      assert id == front + [id[|id| - 1]];
    }
  }

  /** The last path element of a content-addressed key is the identifier it was built from. */
  lemma BaseOfSharded(prefix: Key, id: string)
    requires Name(id) && prefix != "" && prefix[|prefix| - 1] == '/'
    ensures Base(Sharded(prefix, id)) == id
  {
    var dir := if |id| < 4 then prefix else prefix + id[..2] + "/" + id[2..4] + "/";
    assert Sharded(prefix, id) == dir + id;
    assert TrimSlashes(dir + id) == dir + id;
    AfterLastSlash(dir, id);
  }

  /** So distinct names never share a key. */
  lemma ShardedInjective(prefix: Key, a: string, b: string)
    requires Name(a) && Name(b) && prefix != "" && prefix[|prefix| - 1] == '/'
    requires Sharded(prefix, a) == Sharded(prefix, b)
    ensures a == b
  {
    BaseOfSharded(prefix, a);
    BaseOfSharded(prefix, b);
  }

  lemma {:induction false} TrimAddsNothing(k: Key, n: nat)
    requires k != "" && k[|k| - 1] != '/'
    ensures TrimSlashes(k + seq(n, _ => '/')) == k
  {
    var s := k + seq(n, _ => '/');
    if n == 0 {
      assert s == k;
    } else {
      assert s[|s| - 1] == '/' && s[..|s| - 1] == k + seq(n - 1, _ => '/');
      TrimAddsNothing(k, n - 1);
    }
  }

  lemma {:induction false} OnlySlashes(n: nat)
    ensures TrimSlashes(seq(n, _ => '/')) == ""
  {
    if n > 0 {
      var s := seq(n, _ => '/');
      assert s[..|s| - 1] == seq(n - 1, _ => '/');
      OnlySlashes(n - 1);
    }
  }

  /** path.Base of any key: slashes at the end do not count, of nothing but slashes it is one, and of nothing a dot. */
  lemma BaseOfAnyKey(dir: Key, id: string, n: nat)
    requires Name(id) && (dir == "" || dir[|dir| - 1] == '/')
    ensures Base(dir + id + seq(n, _ => '/')) == id
    ensures Base("") == "." && Base(seq(n + 1, _ => '/')) == "/"
  {
    var k := dir + id;
    assert k[|k| - 1] == id[|id| - 1] && id[|id| - 1] in id;
    TrimAddsNothing(k, n);
    OnlySlashes(n + 1);
    if dir == "" { NoSlash(id); assert k == id; } else { AfterLastSlash(dir, id); }
  }

  lemma {:induction false} NoSlash(id: string)
    requires '/' !in id
    ensures AfterSlash(id) == id
    decreases |id|
  {
    if id != "" {
      var front := id[..|id| - 1];
      assert id == front + [id[|id| - 1]];
      NoSlash(front);
    }
  }
}
