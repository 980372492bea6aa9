/** The directory tree the script walks, as a value. A directory lists its
    entries in the order the host returns them (`os.listdir`, `os.scandir`),
    which is unspecified; the tree renderer sorts them by name. */
module FileTree {
  import opened Strings

  /** What `open(path, 'r', encoding='utf-8').read()` ends in: the decoded
      text, a `UnicodeDecodeError` or `PermissionError`, or any other
      exception together with its description. */
  datatype ReadOutcome =
    | Text(content: string)
    | DecodeOrPermissionError
    | OtherError(description: string)

  /** One directory entry. `Unreadable` is a directory that `os.listdir`
      refuses with `PermissionError`. */
  datatype Node =
    | File(name: string, read: ReadOutcome)
    | Dir(name: string, children: seq<Node>)
    | Unreadable(name: string)

  /** `os.path.isdir` on the entry's path. */
  predicate IsDirectory(n: Node) {
    n.Dir? || n.Unreadable?
  }

  /** An entry name as `os.listdir` returns it: non-empty, without the
      path separator, and neither `.` nor `..`. */
  predicate ValidName(name: string) {
    name != [] && '/' !in name && name != "." && name != ".."
  }

  /** No two entries of one directory have the same name. */
  predicate UniqueNames(s: seq<Node>) {
    forall i, j | 0 <= i < j < |s| :: s[i].name != s[j].name
  }

  /** Within a listing a name determines the entry (repeats of one entry
      allowed): all that sorting by name needs to leave no choice. */
  predicate NamesDetermineEntries(s: seq<Node>) {
    forall x, y | x in s && y in s && x.name == y.name :: x == y
  }

  lemma UniqueNamesDetermine(s: seq<Node>)
    requires UniqueNames(s)
    ensures NamesDetermineEntries(s)
  {
    forall x, y | x in s && y in s && x.name == y.name
      ensures x == y
    {
      var i :| 0 <= i < |s| && s[i] == x;
      var j :| 0 <= j < |s| && s[j] == y;
      assert !(i < j) && !(j < i);
    }
  }

  /** A tree as a filesystem holds it: below `n`, every entry name is a valid
      name and no directory holds two entries of the same name (the name of
      `n` itself, the walk's root, is not used). */
  predicate WellFormed(n: Node) {
    n.Dir? ==> UniqueNames(n.children) && forall c | c in n.children :: ValidName(c.name) && WellFormed(c)
  }

  predicate SortedByName(s: seq<Node>) {
    forall i, j | 0 <= i < j < |s| :: StrLe(s[i].name, s[j].name)
  }

  /** Inserts `x` into a sorted listing, in front of the first entry whose
      name is not smaller. */
  function Insert(x: Node, s: seq<Node>): (r: seq<Node>)
    requires SortedByName(s)
    ensures SortedByName(r)
    ensures multiset(r) == multiset(s) + multiset{x}
  {
    if s == [] then [x]
    else if StrLe(x.name, s[0].name) then
      assert forall j | 0 < j < |s| :: StrLe(x.name, s[j].name) by {
        forall j | 0 < j < |s| ensures StrLe(x.name, s[j].name) {
          StrLeTransitive(x.name, s[0].name, s[j].name);
        }
      }
      SortedCons(x, s);
      [x] + s
    else
      var rest := Insert(x, s[1..]);
      assert s == [s[0]] + s[1..];
      assert forall j | 0 <= j < |rest| :: StrLe(s[0].name, rest[j].name) by {
        forall j | 0 <= j < |rest| ensures StrLe(s[0].name, rest[j].name) {
          StrLeTotal(x.name, s[0].name);
          InsertedFrom(x, s[1..], rest, j);
        }
      }
      SortedCons(s[0], rest);
      [s[0]] + rest
  }

  /** An entry placed in front of a sorted listing, no larger than any of
      it, gives a sorted listing. */
  lemma SortedCons(x: Node, s: seq<Node>)
    requires SortedByName(s)
    requires forall j | 0 <= j < |s| :: StrLe(x.name, s[j].name)
    ensures SortedByName([x] + s)
  {
    var r := [x] + s;
    forall i, j | 0 <= i < j < |r|
      ensures StrLe(r[i].name, r[j].name)
    {
      assert r[j] == s[j - 1];
      if i > 0 { assert r[i] == s[i - 1]; }
    }
  }

  /** Every entry of `t`, a listing holding the entries of `s` and `x`, is
      `x` or an entry of `s`. */
  lemma InsertedFrom(x: Node, s: seq<Node>, t: seq<Node>, j: int)
    requires multiset(t) == multiset(s) + multiset{x}
    requires 0 <= j < |t|
    ensures t[j] == x || exists k | 0 <= k < |s| :: s[k] == t[j]
  {
    assert t[j] in multiset(t);
    if t[j] != x {
      assert t[j] in multiset(s);
      assert t[j] in s;
    }
  }

  /** Python's `sorted` on a listing: ascending by name, same entries. */
  function SortByName(s: seq<Node>): (r: seq<Node>)
    ensures SortedByName(r)
    ensures multiset(r) == multiset(s)
  {
    if s == [] then []
    else
      assert s == [s[0]] + s[1..];
      Insert(s[0], SortByName(s[1..]))
  }

  /** Two sorted orderings of the same entries agree when names determine
      entries: sorting by name leaves no choice. */
  lemma {:induction false} SortedUnique(a: seq<Node>, b: seq<Node>)
    requires SortedByName(a) && SortedByName(b)
    requires multiset(a) == multiset(b)
    requires NamesDetermineEntries(a)
    ensures a == b
    decreases |a|
  {
    if a != [] {
      assert |b| == |a| by {
        assert |multiset(a)| == |multiset(b)|;
      }
      SortedHeads(a, b);
      TailMultiset(a, b);
      SortedUnique(a[1..], b[1..]);
      assert a == [a[0]] + a[1..];
      assert b == [b[0]] + b[1..];
    }
  }

  /** Both orderings start with the entry of the least name. */
  lemma SortedHeads(a: seq<Node>, b: seq<Node>)
    requires SortedByName(a) && SortedByName(b)
    requires multiset(a) == multiset(b)
    requires NamesDetermineEntries(a)
    requires a != [] && b != []
    ensures a[0] == b[0]
  {
    assert a[0] in multiset(b);
    var j :| 0 <= j < |b| && b[j] == a[0];
    assert b[0] in multiset(a);
    var i :| 0 <= i < |a| && a[i] == b[0];
    if j > 0 {
      assert StrLe(b[0].name, b[j].name);
    } else {
      StrLeReflexive(b[0].name);
    }
    if i > 0 {
      assert StrLe(a[0].name, a[i].name);
    } else {
      StrLeReflexive(a[0].name);
    }
    StrLeAntisymmetric(a[0].name, b[0].name);
  }

  lemma TailMultiset(a: seq<Node>, b: seq<Node>)
    requires multiset(a) == multiset(b)
    requires a != [] && b != [] && a[0] == b[0]
    ensures multiset(a[1..]) == multiset(b[1..])
  {
    assert a == [a[0]] + a[1..];
    assert b == [b[0]] + b[1..];
    assert multiset(a[1..]) == multiset(a) - multiset{a[0]};
    assert multiset(b[1..]) == multiset(b) - multiset{a[0]};
  }
}
