/** The tree renderer (`print_directory_structure`): a depth-first listing of
    a directory, each level sorted by name, drawn with box connectors. */
module TreeRender {
  import opened Strings
  import opened FileTree
  import opened Output

  const PermissionDenied: string := "[Permission Denied]\n"
  const LastConnector: string := "└── "
  const MidConnector: string := "├── "
  const LastExtension: string := "    "
  const MidExtension: string := "│   "

  function Connector(isLast: bool): string {
    if isLast then LastConnector else MidConnector
  }

  function Extension(isLast: bool): string {
    if isLast then LastExtension else MidExtension
  }

  /** `sorted(os.listdir(startpath))`, given by what it is: the directory's
      entries, ordered by name. `ItemsAreSorted` shows that the insertion
      sort the renderer runs computes exactly this listing. */
  ghost function Items(d: Node): (r: seq<Node>)
    requires d.Dir?
    ensures SortedByName(r) && multiset(r) == multiset(d.children)
  {
    var sorted := SortByName(d.children);
    assert SortedByName(sorted) && multiset(sorted) == multiset(d.children);
    var r :| SortedByName(r) && multiset(r) == multiset(d.children);
    r
  }

  /** Entries of the sorted listing are entries of the directory. */
  lemma ItemMember(d: Node, i: int)
    requires d.Dir? && 0 <= i < |Items(d)|
    ensures Items(d)[i] in d.children
  {
    assert Items(d)[i] in multiset(Items(d));
  }

  /** With unique names, sorting the listing yields exactly `Items`. */
  lemma ItemsAreSorted(d: Node)
    requires d.Dir? && UniqueNames(d.children)
    ensures SortByName(d.children) == Items(d)
  {
    var items := Items(d);
    UniqueNamesDetermine(d.children);
    assert NamesDetermineEntries(items) by {
      forall x, y | x in items && y in items && x.name == y.name
        ensures x == y
      {
        assert x in multiset(items) && y in multiset(items);
        assert x in d.children && y in d.children;
      }
    }
    SortedUnique(items, SortByName(d.children));
  }

  /** Everything `print_directory_structure(d, _, prefix)` writes, one
      element per `write` call. */
  ghost function TreeLines(d: Node, prefix: string): seq<string>
    requires IsDirectory(d)
    decreases d, 1, 0
  {
    if d.Unreadable? then [prefix + PermissionDenied]
    else Blocks(d, |Items(d)|, prefix)
  }

  /** What the loop has written after the first `k` sorted entries of `d`. */
  ghost function Blocks(d: Node, k: nat, prefix: string): seq<string>
    requires d.Dir? && k <= |Items(d)|
    decreases d, 0, k
  {
    if k == 0 then []
    else
      ItemMember(d, k - 1);
      Blocks(d, k - 1, prefix) + EntryBlock(Items(d)[k - 1], k == |Items(d)|, prefix)
  }

  /** One pass of the loop: the entry's own line, then, for a directory, its
      subtree one level deeper. */
  ghost function EntryBlock(item: Node, isLast: bool, prefix: string): seq<string>
    decreases item, 2, 0
  {
    [prefix + Connector(isLast) + item.name + "\n"]
      + (if IsDirectory(item) then TreeLines(item, prefix + Extension(isLast)) else [])
  }

  method PrintDirectoryStructure(d: Node, out: Sink, prefix: string)
    requires IsDirectory(d) && WellFormed(d)
    modifies out
    ensures out.written == old(out.written) + TreeLines(d, prefix)
    decreases d, 1
  {
    if d.Unreadable? {
      out.Write(prefix + PermissionDenied);
      return;
    }
    var items := SortByName(d.children);
    ItemsAreSorted(d);
    var i := 0;
    while i < |items|
      invariant 0 <= i <= |items|
      invariant out.written == old(out.written) + Blocks(d, i, prefix)
    {
      ItemMember(d, i);
      ghost var done := Blocks(d, i, prefix);
      ghost var block := EntryBlock(items[i], i == |items| - 1, prefix);
      assert Blocks(d, i + 1, prefix) == done + block;
      PrintEntry(items[i], i == |items| - 1, out, prefix);
      assert out.written == old(out.written) + done + block;
      AppendAssociative(old(out.written), done, block);
      i := i + 1;
    }
  }

  /** The body of the loop in `print_directory_structure` for one entry. */
  method PrintEntry(item: Node, isLast: bool, out: Sink, prefix: string)
    requires WellFormed(item)
    modifies out
    ensures out.written == old(out.written) + EntryBlock(item, isLast, prefix)
    decreases item, 2
  {
    var connector := if isLast then LastConnector else MidConnector;
    out.Write(prefix + connector + item.name + "\n");
    if item.Dir? || item.Unreadable? {
      var extension := if isLast then LastExtension else MidExtension;
      PrintDirectoryStructure(item, out, prefix + extension);
    }
  }

  // ----- Line counts -----

  /** Lines an entry accounts for in its parent's listing: its own line, plus
      the marker of an unlistable directory or the lines of a listable one.
      Defined over the listing as returned, without sorting. */
  function EntryLines(n: Node): nat {
    match n
    case File(_, _) => 1
    case Unreadable(_) => 2
    case Dir(_, cs) => 1 + TotalLines(cs)
  }

  function TotalLines(cs: seq<Node>): nat {
    if cs == [] then 0 else EntryLines(cs[0]) + TotalLines(cs[1..])
  }

  lemma {:induction false} TotalLinesAppend(a: seq<Node>, b: seq<Node>)
    ensures TotalLines(a + b) == TotalLines(a) + TotalLines(b)
  {
    if a == [] {
      assert a + b == b;
    } else {
      assert (a + b)[1..] == a[1..] + b;
      TotalLinesAppend(a[1..], b);
    }
  }

  /** How many lines a listing takes does not depend on its order. */
  lemma {:induction false} TotalLinesPermutation(a: seq<Node>, b: seq<Node>)
    requires multiset(a) == multiset(b)
    ensures TotalLines(a) == TotalLines(b)
    decreases |a|
  {
    if a == [] {
      assert |b| == |multiset(b)| == 0;
    } else {
      assert a[0] in multiset(b);
      var i :| 0 <= i < |b| && b[i] == a[0];
      TotalLinesRemove(b, i);
      RemoveMultiset(a, b, i);
      TotalLinesPermutation(a[1..], b[..i] + b[i + 1..]);
    }
  }

  lemma TotalLinesRemove(b: seq<Node>, i: nat)
    requires i < |b|
    ensures TotalLines(b) == EntryLines(b[i]) + TotalLines(b[..i] + b[i + 1..])
  {
    assert b == b[..i] + ([b[i]] + b[i + 1..]);
    TotalLinesAppend(b[..i], [b[i]] + b[i + 1..]);
    assert ([b[i]] + b[i + 1..])[1..] == b[i + 1..];
    TotalLinesAppend(b[..i], b[i + 1..]);
  }

  lemma RemoveMultiset<T>(a: seq<T>, b: seq<T>, i: nat)
    requires a != [] && i < |b| && b[i] == a[0] && multiset(a) == multiset(b)
    ensures multiset(b[..i] + b[i + 1..]) == multiset(a[1..])
  {
    assert b == b[..i] + [b[i]] + b[i + 1..];
    assert multiset(b) == multiset(b[..i]) + multiset{a[0]} + multiset(b[i + 1..]);
    assert a == [a[0]] + a[1..];
    assert multiset(a[1..]) == multiset(a) - multiset{a[0]};
  }

  /** One write per entry (one line when the name has no line break),
      recursively; an unlistable directory writes only its marker line. */
  lemma {:induction false} TreeLinesCount(d: Node, prefix: string)
    requires IsDirectory(d)
    ensures d.Unreadable? ==> TreeLines(d, prefix) == [prefix + PermissionDenied]
    ensures d.Dir? ==> |TreeLines(d, prefix)| == TotalLines(d.children)
    decreases d, 1, 0
  {
    if d.Dir? {
      BlocksCount(d, |Items(d)|, prefix);
      assert Items(d)[..|Items(d)|] == Items(d);
      TotalLinesPermutation(Items(d), d.children);
    }
  }

  lemma {:induction false} BlocksCount(d: Node, k: nat, prefix: string)
    requires d.Dir? && k <= |Items(d)|
    ensures |Blocks(d, k, prefix)| == TotalLines(Items(d)[..k])
    decreases d, 0, k
  {
    if k > 0 {
      var item := Items(d)[k - 1];
      ItemMember(d, k - 1);
      BlocksCount(d, k - 1, prefix);
      EntryBlockCount(item, k == |Items(d)|, prefix);
      assert Items(d)[..k] == Items(d)[..k - 1] + [item];
      TotalLinesAppend(Items(d)[..k - 1], [item]);
    }
  }

  lemma {:induction false} EntryBlockCount(item: Node, isLast: bool, prefix: string)
    ensures |EntryBlock(item, isLast, prefix)| == EntryLines(item)
    decreases item, 2, 0
  {
    if IsDirectory(item) {
      TreeLinesCount(item, prefix + Extension(isLast));
    }
  }

  // ----- Layout of a listing -----

  lemma {:induction false} BlocksGrow(d: Node, j: nat, k: nat, prefix: string)
    requires d.Dir? && j <= k <= |Items(d)|
    ensures Blocks(d, j, prefix) <= Blocks(d, k, prefix)
    decreases k
  {
    if j < k {
      BlocksGrow(d, j, k - 1, prefix);
    }
  }

  /** Where the `j`-th entry of the sorted listing lands: right after the
      lines of the entries sorted before it, as one contiguous block. */
  lemma EntryLayout(d: Node, j: nat, prefix: string)
    requires d.Dir? && j < |Items(d)|
    ensures var lines, o, item := TreeLines(d, prefix), TotalLines(Items(d)[..j]), Items(d)[j];
      && o + EntryLines(item) <= |lines|
      && lines[o..o + EntryLines(item)] == EntryBlock(item, j == |Items(d)| - 1, prefix)
  {
    var item := Items(d)[j];
    var isLast := j == |Items(d)| - 1;
    var front := Blocks(d, j, prefix);
    var block := EntryBlock(item, isLast, prefix);
    var lines := TreeLines(d, prefix);
    assert front + block <= lines by {
      ItemMember(d, j);
      assert Blocks(d, j + 1, prefix) == front + block;
      BlocksGrow(d, j + 1, |Items(d)|, prefix);
    }
    assert |front| == TotalLines(Items(d)[..j]) by {
      BlocksCount(d, j, prefix);
    }
    assert |block| == EntryLines(item) by {
      EntryBlockCount(item, isLast, prefix);
    }
    SliceAfterPrefix(lines, front, block);
  }

  /** A run that follows a prefix of a sequence is its slice at that offset. */
  lemma SliceAfterPrefix<T>(whole: seq<T>, front: seq<T>, block: seq<T>)
    requires front + block <= whole
    ensures |front| + |block| <= |whole|
    ensures whole[|front|..|front| + |block|] == block
  {
    assert whole[..|front| + |block|] == front + block;
  }

  /** The block of one entry: its own line carries the corner connector
      exactly when it is the last entry, and a directory's subtree follows
      that line directly, drawn with the prefix extended by four characters,
      blank under a last entry and a vertical bar otherwise. */
  lemma EntryBlockLayout(item: Node, isLast: bool, prefix: string)
    ensures var block := EntryBlock(item, isLast, prefix);
      && block[0] == prefix + (if isLast then "└── " else "├── ") + item.name + "\n"
      && (block[0][|prefix|..|prefix| + 4] == "└── " <==> isLast)
      && (IsDirectory(item) ==> block[1..] == TreeLines(item, prefix + (if isLast then "    " else "│   ")))
      && (!IsDirectory(item) ==> |block| == 1)
  {
    var line := prefix + Connector(isLast) + item.name + "\n";
    assert line[|prefix|..|prefix| + 4] == Connector(isLast);
    assert LastConnector[0] != MidConnector[0];
  }

  /** Every entry of a listable directory gets its own line. */
  lemma EveryEntryListed(d: Node, c: Node, prefix: string)
    requires d.Dir? && c in d.children
    ensures exists isLast: bool :: prefix + Connector(isLast) + c.name + "\n" in TreeLines(d, prefix)
  {
    assert c in multiset(Items(d));
    var j :| 0 <= j < |Items(d)| && Items(d)[j] == c;
    var isLast := j == |Items(d)| - 1;
    EntryLayout(d, j, prefix);
    var o := TotalLines(Items(d)[..j]);
    assert TreeLines(d, prefix)[o] == EntryBlock(c, isLast, prefix)[0];
  }

  /** Of two sorted entries, the one with the lesser name is drawn first: its
      line lies above the other's, and only the later one can carry the
      closing connector `└── `. */
  lemma SiblingOrder(d: Node, prefix: string, i: nat, j: nat)
    requires d.Dir? && i < j < |Items(d)|
    ensures StrLe(Items(d)[i].name, Items(d)[j].name)
    ensures var lines, oi, oj := TreeLines(d, prefix), TotalLines(Items(d)[..i]), TotalLines(Items(d)[..j]);
      && oi < oj < |lines|
      && lines[oi] == prefix + MidConnector + Items(d)[i].name + "\n"
      && lines[oj] == prefix + Connector(j == |Items(d)| - 1) + Items(d)[j].name + "\n"
  {
    assert Items(d)[..j] == Items(d)[..i] + Items(d)[i..j];
    TotalLinesAppend(Items(d)[..i], Items(d)[i..j]);
    assert Items(d)[i..j] == [Items(d)[i]] + Items(d)[i + 1..j];
    EntryLayout(d, i, prefix);
    EntryLayout(d, j, prefix);
    var o := TotalLines(Items(d)[..i]);
    assert TreeLines(d, prefix)[o] == EntryBlock(Items(d)[i], false, prefix)[0];
    var p := TotalLines(Items(d)[..j]);
    assert TreeLines(d, prefix)[p] == EntryBlock(Items(d)[j], j == |Items(d)| - 1, prefix)[0];
  }

  // ----- Shape of every line -----

  predicate IsConnector(u: string) { u == LastConnector || u == MidConnector }
  predicate IsExtension(u: string) { u == LastExtension || u == MidExtension }

  /** What follows the caller's prefix on a line: zero or more four-character
      indentation units, then an entry's connector or the marker of an
      unlistable directory. */
  predicate LineTail(s: string)
    decreases |s|
  {
    || s == PermissionDenied
    || (|s| >= 4 && IsConnector(s[..4]))
    || (|s| >= 4 && IsExtension(s[..4]) && LineTail(s[4..]))
  }

  /** A line drawn with some prefix. */
  predicate ShapedLine(line: string, prefix: string) {
    && prefix < line
    && line[|line| - 1] == '\n'
    && LineTail(line[|prefix|..])
  }

  /** Every line starts with the prefix it was called with, continues with
      indentation units and a connector (or the marker), and ends with a
      line break. */
  lemma {:induction false} TreeLinesShape(d: Node, prefix: string)
    requires IsDirectory(d)
    ensures forall line | line in TreeLines(d, prefix) :: ShapedLine(line, prefix)
    decreases d, 1, 0
  {
    if d.Dir? {
      BlocksShape(d, |Items(d)|, prefix);
    } else {
      assert (prefix + PermissionDenied)[|prefix|..] == PermissionDenied;
    }
  }

  lemma {:induction false} BlocksShape(d: Node, k: nat, prefix: string)
    requires d.Dir? && k <= |Items(d)|
    ensures forall line | line in Blocks(d, k, prefix) :: ShapedLine(line, prefix)
    decreases d, 0, k
  {
    if k > 0 {
      ItemMember(d, k - 1);
      BlocksShape(d, k - 1, prefix);
      EntryBlockShape(Items(d)[k - 1], k == |Items(d)|, prefix);
    }
  }

  lemma {:induction false} EntryBlockShape(item: Node, isLast: bool, prefix: string)
    ensures forall line | line in EntryBlock(item, isLast, prefix) :: ShapedLine(line, prefix)
    decreases item, 2, 0
  {
    EntryLineShaped(prefix, Connector(isLast), item.name);
    if IsDirectory(item) {
      var ext := Extension(isLast);
      TreeLinesShape(item, prefix + ext);
      forall line | line in TreeLines(item, prefix + ext)
        ensures ShapedLine(line, prefix)
      {
        IndentedLineShaped(line, prefix, ext);
      }
    }
  }

  lemma EntryLineShaped(prefix: string, connector: string, name: string)
    requires IsConnector(connector)
    ensures ShapedLine(prefix + connector + name + "\n", prefix)
  {
    var line := prefix + connector + name + "\n";
    assert line[|prefix|..][..4] == connector;
  }

  lemma IndentedLineShaped(line: string, prefix: string, ext: string)
    requires IsExtension(ext)
    requires ShapedLine(line, prefix + ext)
    ensures ShapedLine(line, prefix)
  {
    var tail := line[|prefix|..];
    assert tail[..4] == ext;
    assert tail[4..] == line[|prefix + ext|..];
  }

  // ----- A worked listing -----

  /** Listing order is by name, whatever order the directory returns. */
  lemma ExampleSort(a: Node, b: Node, c: Node)
    requires a == File("a.txt", Text("a")) && b == File("b.txt", Text("b")) && c == Dir("c", [File("d.txt", Text("d"))])
    ensures SortByName([c, b, a]) == [a, b, c]
  {
    ExampleNameOrder();
    SortReversedThree(a, b, c);
  }

  lemma ExampleNameOrder()
    ensures !StrLe("b.txt", "a.txt") && !StrLe("c", "a.txt") && !StrLe("c", "b.txt")
  {
  }

  /** Three entries listed in descending name order come out ascending. */
  lemma SortReversedThree(a: Node, b: Node, c: Node)
    requires !StrLe(b.name, a.name) && !StrLe(c.name, a.name) && !StrLe(c.name, b.name)
    ensures SortByName([c, b, a]) == [a, b, c]
  {
    SortReversedTwo(a, b);
    assert [c, b, a][1..] == [b, a];
    InsertLargest(a, b, c);
  }

  lemma SortReversedTwo(a: Node, b: Node)
    requires !StrLe(b.name, a.name)
    ensures SortByName([b, a]) == [a, b]
  {
    assert [b, a][1..] == [a];
    assert SortByName([a]) == [a];
    InsertPastOne(b, a);
  }

  lemma InsertLargest(a: Node, b: Node, c: Node)
    requires SortedByName([a, b]) && !StrLe(c.name, a.name) && !StrLe(c.name, b.name)
    ensures Insert(c, [a, b]) == [a, b, c]
  {
    InsertPastOne(c, b);
    InsertAfter(c, [a, b]);
    assert [a, b][1..] == [b];
  }

  lemma InsertPastOne(x: Node, y: Node)
    requires !StrLe(x.name, y.name)
    ensures Insert(x, [y]) == [y, x]
  {
    InsertAfter(x, [y]);
    assert Insert(x, []) == [x];
  }

  /** An entry whose name is larger than the first name of a sorted listing
      is inserted past it. */
  lemma InsertAfter(x: Node, s: seq<Node>)
    requires SortedByName(s) && s != [] && !StrLe(x.name, s[0].name)
    ensures SortedByName(s[1..])
    ensures Insert(x, s) == [s[0]] + Insert(x, s[1..])
  {
  }

  lemma ExampleItems(d: Node, a: Node, b: Node, c: Node)
    requires a == File("a.txt", Text("a")) && b == File("b.txt", Text("b")) && c == Dir("c", [File("d.txt", Text("d"))])
    requires d == Dir("repo", [c, b, a])
    ensures Items(d) == [a, b, c]
  {
    ExampleSort(a, b, c);
    assert c.name != b.name && c.name != a.name && b.name != a.name;
    ThreeUniqueNames(c, b, a);
    ItemsAreSorted(d);
  }

  lemma ThreeUniqueNames(x: Node, y: Node, z: Node)
    requires x.name != y.name && x.name != z.name && y.name != z.name
    ensures UniqueNames([x, y, z])
  {
  }

  lemma ExampleInner(c: Node, p: string)
    requires c == Dir("c", [File("d.txt", Text("d"))])
    ensures TreeLines(c, p) == [p + LastConnector + "d.txt" + "\n"]
  {
    SortedUnique(c.children, Items(c));
    assert Blocks(c, 0, p) == [];
  }

  lemma ExampleFirstEntries(d: Node, p: string)
    requires d.Dir? && Items(d) == [File("a.txt", Text("a")), File("b.txt", Text("b")), Dir("c", [File("d.txt", Text("d"))])]
    ensures Blocks(d, 2, p) == [p + MidConnector + "a.txt" + "\n", p + MidConnector + "b.txt" + "\n"]
  {
    assert Blocks(d, 1, p) == [p + MidConnector + "a.txt" + "\n"];
  }

  lemma ExampleLastEntry(c: Node, p: string)
    requires c == Dir("c", [File("d.txt", Text("d"))])
    ensures EntryBlock(c, true, p) == [p + LastConnector + "c" + "\n", p + LastExtension + LastConnector + "d.txt" + "\n"]
  {
    ExampleInner(c, p + LastExtension);
  }

  /** The listing of a small repository: `a.txt`, `b.txt` and `c/d.txt`,
      given in reverse order, come out sorted, with `c`'s entry drawn last
      and `d.txt` indented under it. */
  lemma ExampleListing(p: string)
    ensures TreeLines(Dir("repo", [Dir("c", [File("d.txt", Text("d"))]), File("b.txt", Text("b")), File("a.txt", Text("a"))]), p)
      == [p + MidConnector + "a.txt" + "\n", p + MidConnector + "b.txt" + "\n",
          p + LastConnector + "c" + "\n", p + LastExtension + LastConnector + "d.txt" + "\n"]
  {
    var c := Dir("c", [File("d.txt", Text("d"))]);
    var b := File("b.txt", Text("b"));
    var a := File("a.txt", Text("a"));
    var d := Dir("repo", [c, b, a]);
    ExampleItems(d, a, b, c);
    ExampleFirstEntries(d, p);
    ExampleLastEntry(c, p);
    assert TreeLines(d, p) == Blocks(d, 2, p) + EntryBlock(c, true, p);
  }
}
