/**
  The workspace indexer: an indented drawing of a directory tree, and a separately written walk
  that lists its files. The drawing can be read back, and it shows the files the walk lists.
*/
module Indexer {

  /** A directory entry. Other stands for what is neither a directory nor a regular file. */
  datatype Entry =
    | Dir(name: string, entries: seq<Entry>)
    | File(name: string)
    | Other(name: string)

  /** The names left out; everything below holds for any choice of them. */
  datatype Ignore = Ignore(dirs: set<string>, files: set<string>)

  const IGNORED := Ignore(
    {".git", "__pycache__", ".idea", ".vscode", "node_modules", "vendor", "bin"},
    {".DS_Store", "project_manifest.md"})

  /** What the drawing shows: directories, and everything else. */
  datatype Shown = Branch(name: string, items: seq<Shown>) | Leaf(name: string)

  predicate Skipped(ig: Ignore, e: Entry) {
    (e.Dir? && e.name in ig.dirs) || (e.File? && e.name in ig.files)
  }

  function Size(e: Entry): nat {
    1 + if e.Dir? then Sizes(e.entries) else 0
  }

  function Sizes(es: seq<Entry>): nat {
    if es == [] then 0 else Size(es[0]) + Sizes(es[1..])
  }

  function Join(root: string, name: string): string {
    if root == "" then name else root + "/" + name
  }

  // ---------------------------------------------------------------------------------------
  // Sorting.

  /** The order of texts that Python's comparison of strings gives. */
  predicate TextLess(a: string, b: string) {
    if b == [] then false
    else if a == [] then true
    else a[0] < b[0] || (a[0] == b[0] && TextLess(a[1..], b[1..]))
  }

  /** Directories first, then by lower-cased name; `lower` stands for str.lower. */
  predicate Before(lower: string -> string, a: Entry, b: Entry) {
    (a.Dir? && !b.Dir?) || (a.Dir? == b.Dir? && TextLess(lower(a.name), lower(b.name)))
  }

  /** Python's order: by the first character in which the texts differ, a proper prefix first. */
  lemma {:induction false} TextLessExactly(a: string, b: string)
    ensures TextLess(a, b) <==> exists k: nat :: FirstDifference(a, b, k)
  {
    if a != [] && b != [] && a[0] == b[0] {
      TextLessExactly(a[1..], b[1..]);
      if k: nat :| FirstDifference(a[1..], b[1..], k) {
        assert a[..k + 1] == [a[0]] + a[1..][..k] && b[..k + 1] == [b[0]] + b[1..][..k];
        assert FirstDifference(a, b, k + 1);
      }
      if k: nat :| FirstDifference(a, b, k) {
        assert k > 0;
        assert a[1..][..k - 1] == a[..k][1..] && b[1..][..k - 1] == b[..k][1..];
        assert FirstDifference(a[1..], b[1..], k - 1);
      }
    } else {
      if TextLess(a, b) {
        assert FirstDifference(a, b, 0);
      }
      if k: nat :| FirstDifference(a, b, k) && k > 0 {
        SameHead(a, b, k);
        assert false;
      }
    }
  }

  lemma SameHead(a: string, b: string, k: nat)
    requires FirstDifference(a, b, k) && k > 0
    ensures a != [] && a[0] == b[0]
  {
    assert a[..k][0] == b[..k][0];
  }

  predicate FirstDifference(a: string, b: string, k: nat) {
    && k <= |a| && k < |b| && a[..k] == b[..k]
    && (k == |a| || a[k] < b[k])
  }

  function Insert(lower: string -> string, e: Entry, es: seq<Entry>): (r: seq<Entry>)
    ensures multiset(r) == multiset(es) + multiset{e}
    ensures Sizes(r) == Sizes(es) + Size(e)
  {
    if es == [] || !Before(lower, es[0], e) then
      assert ([e] + es)[1..] == es;
      [e] + es
    else
      var rest := Insert(lower, e, es[1..]);
      assert es == [es[0]] + es[1..] && ([es[0]] + rest)[1..] == rest;
      [es[0]] + rest
  }

  /** Entries that compare equal keep their order: each goes in front of its equals among the later ones. */
  function Sort(lower: string -> string, es: seq<Entry>): (r: seq<Entry>)
    ensures multiset(r) == multiset(es)
    ensures Sizes(r) == Sizes(es)
  {
    if es == [] then []
    else
      assert es == [es[0]] + es[1..];
      Insert(lower, es[0], Sort(lower, es[1..]))
  }

  lemma {:induction false} TextLessNegTransitive(a: string, b: string, c: string)
    requires !TextLess(b, a) && !TextLess(c, b)
    ensures !TextLess(c, a)
  {
    if a != [] && b != [] && c != [] && a[0] == b[0] == c[0] {
      TextLessNegTransitive(a[1..], b[1..], c[1..]);
    }
  }

  lemma BeforeNegTransitive(lower: string -> string, a: Entry, b: Entry, c: Entry)
    requires !Before(lower, b, a) && !Before(lower, c, b)
    ensures !Before(lower, c, a)
  {
    if a.Dir? == b.Dir? == c.Dir? {
      TextLessNegTransitive(lower(a.name), lower(b.name), lower(c.name));
    }
  }

  lemma {:induction false} TextLessAsymmetric(a: string, b: string)
    requires TextLess(a, b)
    ensures !TextLess(b, a)
  {
    if a != [] && b != [] && a[0] == b[0] {
      TextLessAsymmetric(a[1..], b[1..]);
    }
  }

  ghost predicate InOrder(lower: string -> string, es: seq<Entry>) {
    forall i, j :: 0 <= i < j < |es| ==> !Before(lower, es[j], es[i])
  }

  /** The entries that compare equal to x, in their order. */
  function Ties(lower: string -> string, x: Entry, es: seq<Entry>): seq<Entry> {
    if es == [] then []
    else TieOf(lower, x, es[0]) + Ties(lower, x, es[1..])
  }

  function TieOf(lower: string -> string, x: Entry, e: Entry): seq<Entry> {
    if Tie(lower, x, e) then [e] else []
  }

  predicate Tie(lower: string -> string, a: Entry, b: Entry) {
    !Before(lower, a, b) && !Before(lower, b, a)
  }

  lemma HeadIsLeast(lower: string -> string, e: Entry, es: seq<Entry>)
    requires InOrder(lower, es) && es != [] && !Before(lower, es[0], e)
    ensures InOrder(lower, [e] + es)
  {
    forall j | 0 <= j < |es|
      ensures !Before(lower, es[j], e)
    {
      if j > 0 {
        BeforeNegTransitive(lower, e, es[0], es[j]);
      }
    }
  }

  lemma HeadStays(lower: string -> string, a: Entry, e: Entry, es: seq<Entry>, r: seq<Entry>)
    requires InOrder(lower, [a] + es) && InOrder(lower, r) && Before(lower, a, e)
    requires multiset(r) == multiset(es) + multiset{e}
    ensures InOrder(lower, [a] + r)
  {
    forall j | 0 <= j < |r|
      ensures !Before(lower, r[j], a)
    {
      assert r[j] in multiset(r);
      if r[j] == e {
        if a.Dir? == e.Dir? {
          TextLessAsymmetric(lower(a.name), lower(e.name));
        }
      } else {
        assert r[j] in multiset(es);
        var k :| 0 <= k < |es| && es[k] == r[j];
        assert ([a] + es)[k + 1] == r[j] && ([a] + es)[0] == a;
      }
    }
  }

  lemma {:induction false} InsertInOrder(lower: string -> string, e: Entry, es: seq<Entry>)
    requires InOrder(lower, es)
    ensures InOrder(lower, Insert(lower, e, es))
  {
    if es != [] {
      assert es == [es[0]] + es[1..];
      if Before(lower, es[0], e) {
        InsertInOrder(lower, e, es[1..]);
        HeadStays(lower, es[0], e, es[1..], Insert(lower, e, es[1..]));
      } else {
        HeadIsLeast(lower, e, es);
      }
    }
  }

  lemma TieApart(lower: string -> string, x: Entry, e: Entry, a: Entry)
    requires Before(lower, a, e) && Tie(lower, x, e)
    ensures !Tie(lower, x, a)
  {
    if Tie(lower, x, a) {
      BeforeNegTransitive(lower, e, x, a);
      assert false;
    }
  }

  lemma {:induction false} InsertKeepsTies(lower: string -> string, e: Entry, es: seq<Entry>, x: Entry)
    ensures Ties(lower, x, Insert(lower, e, es)) == TieOf(lower, x, e) + Ties(lower, x, es)
  {
    if es == [] || !Before(lower, es[0], e) {
      TiesCons(lower, x, e, es);
    } else {
      var a, rest := es[0], Insert(lower, e, es[1..]);
      calc {
        Ties(lower, x, Insert(lower, e, es));
        { TiesCons(lower, x, a, rest); }
        TieOf(lower, x, a) + Ties(lower, x, rest);
        { InsertKeepsTies(lower, e, es[1..], x); }
        TieOf(lower, x, a) + (TieOf(lower, x, e) + Ties(lower, x, es[1..]));
        { if Tie(lower, x, e) { TieApart(lower, x, e, a); }
          Commute(TieOf(lower, x, a), TieOf(lower, x, e), Ties(lower, x, es[1..])); }
        TieOf(lower, x, e) + (TieOf(lower, x, a) + Ties(lower, x, es[1..]));
        TieOf(lower, x, e) + Ties(lower, x, es);
      }
    }
  }

  lemma Commute<T>(p: seq<T>, q: seq<T>, s: seq<T>)
    requires p == [] || q == []
    ensures p + (q + s) == q + (p + s)
  {}

  lemma TiesCons(lower: string -> string, x: Entry, e: Entry, es: seq<Entry>)
    ensures Ties(lower, x, [e] + es) == TieOf(lower, x, e) + Ties(lower, x, es)
  {
    assert ([e] + es)[1..] == es;
  }

  /** The sort sorts, and is stable: entries that compare equal come out in the order they came in. */
  lemma {:induction false} SortIsStable(lower: string -> string, es: seq<Entry>, x: Entry)
    ensures InOrder(lower, Sort(lower, es))
    ensures Ties(lower, x, Sort(lower, es)) == Ties(lower, x, es)
  {
    if es != [] {
      SortIsStable(lower, es[1..], x);
      InsertInOrder(lower, es[0], Sort(lower, es[1..]));
      InsertKeepsTies(lower, es[0], Sort(lower, es[1..]), x);
    }
  }

  /** Directories come first, and within each kind the lower-cased names do not go back. */
  lemma SortedListing(lower: string -> string, es: seq<Entry>, i: nat, j: nat)
    requires i < j < |Sort(lower, es)|
    ensures
      var a, b := Sort(lower, es)[i], Sort(lower, es)[j];
      && (b.Dir? ==> a.Dir?)
      && (a.Dir? == b.Dir? ==> !TextLess(lower(b.name), lower(a.name)))
  {
    SortIsStable(lower, es, Sort(lower, es)[i]);
  }

  function InsertName(name: string, names: seq<string>): (r: seq<string>)
    ensures multiset(r) == multiset(names) + multiset{name}
  {
    if names == [] || !TextLess(names[0], name) then [name] + names
    else
      assert names == [names[0]] + names[1..];
      [names[0]] + InsertName(name, names[1..])
  }

  function SortNames(names: seq<string>): (r: seq<string>)
    ensures multiset(r) == multiset(names)
  {
    if names == [] then []
    else
      assert names == [names[0]] + names[1..];
      InsertName(names[0], SortNames(names[1..]))
  }

  ghost predicate NamesInOrder(names: seq<string>) {
    forall i, j :: 0 <= i < j < |names| ==> !TextLess(names[j], names[i])
  }

  lemma NameGoesFirst(name: string, names: seq<string>)
    requires NamesInOrder(names) && (names != [] ==> !TextLess(names[0], name))
    ensures NamesInOrder([name] + names)
  {
    forall j | 0 <= j < |names|
      ensures !TextLess(names[j], name)
    {
      if j > 0 {
        TextLessNegTransitive(name, names[0], names[j]);
      }
    }
  }

  lemma {:induction false} InsertNameInOrder(name: string, names: seq<string>)
    requires NamesInOrder(names)
    ensures NamesInOrder(InsertName(name, names))
  {
    if names == [] || !TextLess(names[0], name) {
      NameGoesFirst(name, names);
    } else {
      var rest := InsertName(name, names[1..]);
      InsertNameInOrder(name, names[1..]);
      TextLessAsymmetric(names[0], name);
      assert rest[0] in multiset(rest);
      assert rest[0] == name || rest[0] in names[1..];
      NameGoesFirst(names[0], rest);
    }
  }

  /** The file names come out in order, each as often as it came in. */
  lemma {:induction false} NamesAreSorted(names: seq<string>)
    ensures NamesInOrder(SortNames(names)) && multiset(SortNames(names)) == multiset(names)
  {
    if names != [] {
      NamesAreSorted(names[1..]);
      InsertNameInOrder(names[0], SortNames(names[1..]));
    }
  }

  // ---------------------------------------------------------------------------------------
  // The drawing.

  function Connector(last: bool): (s: string)
    ensures |s| == 4
  {
    if last then "└── " else "├── "
  }

  function Unit(last: bool): (s: string)
    ensures |s| == 4
  {
    if last then "    " else "│   "
  }

  /** The shown part of a directory, in drawing order. */
  function Show(ig: Ignore, lower: string -> string, es: seq<Entry>): seq<Shown>
    decreases Sizes(es), 2
  {
    ShowSorted(ig, lower, Sort(lower, es))
  }

  function ShowSorted(ig: Ignore, lower: string -> string, es: seq<Entry>): seq<Shown>
    decreases Sizes(es), 1
  {
    if es == [] then []
    else
      assert Sizes(es) == Size(es[0]) + Sizes(es[1..]) && Size(es[0]) >= 1;
      (if Skipped(ig, es[0]) then [] else [ShownEntry(ig, lower, es[0])]) + ShowSorted(ig, lower, es[1..])
  }

  function ShownEntry(ig: Ignore, lower: string -> string, e: Entry): Shown
    decreases Size(e), 0
  {
    if e.Dir? then
      assert Size(e) == 1 + Sizes(e.entries);
      Branch(e.name, Show(ig, lower, e.entries))
    else Leaf(e.name)
  }

  function Label(item: Shown): string {
    if item.Branch? then item.name + "/" else item.name
  }

  function Render(items: seq<Shown>, prefix: string): seq<string> {
    if items == [] then []
    else
      RenderItem(items[0], prefix, |items| == 1) + Render(items[1..], prefix)
  }

  function RenderItem(item: Shown, prefix: string, last: bool): seq<string> {
    [prefix + Connector(last) + Label(item)] + if item.Branch? then Render(item.items, prefix + Unit(last)) else []
  }

  /** What is drawn for the first item, for what is below it, and for the rest, glyph by glyph. */
  lemma RenderShape(items: seq<Shown>, prefix: string)
    requires items != []
    ensures
      var item, last := items[0], |items| == 1;
      var line := prefix + (if last then "└── " else "├── ") + item.name + if item.Branch? then "/" else "";
      var below := if item.Branch? then Render(item.items, prefix + if last then "    " else "│   ") else [];
      Render(items, prefix) == [line] + below + Render(items[1..], prefix)
  {
    var item, last := items[0], |items| == 1;
    assert prefix + Connector(last) + Label(item)
        == prefix + Connector(last) + item.name + (if item.Branch? then "/" else "");
  }

  function Filtered(ig: Ignore, es: seq<Entry>): (r: seq<Entry>)
    ensures Sizes(r) <= Sizes(es)
  {
    if es == [] then []
    else if Skipped(ig, es[0]) then Filtered(ig, es[1..])
    else
      assert ([es[0]] + Filtered(ig, es[1..]))[1..] == Filtered(ig, es[1..]);
      [es[0]] + Filtered(ig, es[1..])
  }

  lemma {:induction false} FilteredGrows(ig: Ignore, es: seq<Entry>, k: nat)
    requires k < |es|
    ensures Filtered(ig, es[..k + 1]) == Filtered(ig, es[..k]) + if Skipped(ig, es[k]) then [] else [es[k]]
  {
    if k > 0 {
      FilteredGrows(ig, es[1..], k - 1);
      assert es[..k + 1][1..] == es[1..][..k] && es[..k][1..] == es[1..][..k - 1];
    }
  }

  lemma {:induction false} ShowFiltered(ig: Ignore, lower: string -> string, es: seq<Entry>)
    ensures |ShowSorted(ig, lower, es)| == |Filtered(ig, es)|
    ensures forall k :: 0 <= k < |Filtered(ig, es)| ==>
              ShowSorted(ig, lower, es)[k] == ShownEntry(ig, lower, Filtered(ig, es)[k])
  {
    if es != [] {
      ShowFiltered(ig, lower, es[1..]);
      var shown, filtered := ShowSorted(ig, lower, es[1..]), Filtered(ig, es[1..]);
      if Skipped(ig, es[0]) {
        assert ShowSorted(ig, lower, es) == shown && Filtered(ig, es) == filtered;
      } else {
        assert ShowSorted(ig, lower, es) == [ShownEntry(ig, lower, es[0])] + shown;
        assert Filtered(ig, es) == [es[0]] + filtered;
      }
    }
  }

  /** The lines of the first k items of a directory. */
  function Drawn(items: seq<Shown>, prefix: string, k: nat): seq<string>
    requires k <= |items|
  {
    if k == 0 then [] else Drawn(items, prefix, k - 1) + RenderItem(items[k - 1], prefix, k == |items|)
  }

  lemma DrawnGrows(items: seq<Shown>, prefix: string, k: nat)
    requires k < |items|
    ensures Drawn(items, prefix, k + 1) == Drawn(items, prefix, k) + RenderItem(items[k], prefix, k == |items| - 1)
  {}

  lemma {:induction false} DrawnIsRender(items: seq<Shown>, prefix: string, k: nat)
    requires k <= |items|
    ensures Drawn(items, prefix, k) + Render(items[k..], prefix) == Render(items, prefix)
  {
    if k == 0 {
      assert items[0..] == items;
    } else {
      DrawnIsRender(items, prefix, k - 1);
      assert items[k - 1..][1..] == items[k..];
    }
  }

  lemma {:induction false} SizeOfMember(es: seq<Entry>, k: nat)
    requires k < |es|
    ensures Size(es[k]) <= Sizes(es)
  {
    if k > 0 {
      SizeOfMember(es[1..], k - 1);
    }
  }

  method FilterEntries(ig: Ignore, entries: seq<Entry>) returns (filtered: seq<Entry>)
    ensures filtered == Filtered(ig, entries)
  {
    filtered := [];
    for k := 0 to |entries|
      invariant filtered == Filtered(ig, entries[..k])
    {
      FilteredGrows(ig, entries, k);
      if entries[k].Dir? && entries[k].name in ig.dirs {
        continue;
      }
      if entries[k].File? && entries[k].name in ig.files {
        continue;
      }
      filtered := filtered + [entries[k]];
    }
    assert entries[..|entries|] == entries;
  }

  /** The recursive drawing: sort, filter, then draw each entry and, below it, its own entries. */
  method BuildTree(ig: Ignore, lower: string -> string, dir: seq<Entry>, prefix: string)
    returns (treeLines: seq<string>)
    ensures treeLines == Render(Show(ig, lower, dir), prefix)
    decreases Sizes(dir), 3
  {
    var entries := Sort(lower, dir);
    var filtered := FilterEntries(ig, entries);
    ShowFiltered(ig, lower, entries);
    ghost var items := Show(ig, lower, dir);

    treeLines := [];
    var count := |filtered|;
    for i := 0 to count
      invariant treeLines == Drawn(items, prefix, i)
    {
      SizeOfMember(filtered, i);
      DrawnGrows(items, prefix, i);
      var lines := DrawEntry(ig, lower, filtered[i], prefix, i == count - 1);
      treeLines := treeLines + lines;
    }
    DrawnIsRender(items, prefix, count);
    assert items[count..] == [];
  }

  method DrawEntry(ig: Ignore, lower: string -> string, entry: Entry, prefix: string, isLast: bool)
    returns (lines: seq<string>)
    ensures lines == RenderItem(ShownEntry(ig, lower, entry), prefix, isLast)
    decreases Size(entry), 2
  {
    var connector := if isLast then "└── " else "├── ";
    if entry.Dir? {
      lines := [prefix + connector + entry.name + "/"];
      var newPrefix := prefix + if isLast then "    " else "│   ";
      assert Size(entry) == 1 + Sizes(entry.entries);
      var sub := BuildTree(ig, lower, entry.entries, newPrefix);
      lines := lines + sub;
      assert prefix + connector + entry.name + "/" == prefix + connector + (entry.name + "/");
    } else {
      lines := [prefix + connector + entry.name];
    }
  }

  // ---------------------------------------------------------------------------------------
  // Reading the drawing back.

  predicate Starts(s: string, prefix: string) {
    prefix <= s
  }

  predicate IsItemLine(line: string, prefix: string) {
    Starts(line, prefix + Connector(false)) || Starts(line, prefix + Connector(true))
  }

  /** Reads the items drawn under a prefix, and returns them with the lines that remain. */
  function Parse(lines: seq<string>, prefix: string): (r: (seq<Shown>, seq<string>))
    ensures |r.1| <= |lines|
    decreases |lines|
  {
    if lines == [] || !IsItemLine(lines[0], prefix) then ([], lines)
    else
      var last := Starts(lines[0], prefix + Connector(true));
      var text := lines[0][|prefix| + 4..];
      var isDir := text != [] && text[|text| - 1] == '/';
      var (items, rest) := if isDir then Parse(lines[1..], prefix + Unit(last)) else ([], lines[1..]);
      var item := if isDir then Branch(text[..|text| - 1], items) else Leaf(text);
      if last then ([item], rest)
      else
        var (more, remaining) := Parse(rest, prefix);
        ([item] + more, remaining)
  }

  predicate SlashFree(item: Shown) {
    '/' !in item.name && (item.Branch? ==> forall x :: x in item.items ==> SlashFree(x))
  }

  /** The next line, if any, is not indented under this prefix. */
  predicate Foreign(lines: seq<string>, prefix: string) {
    lines == [] || !Starts(lines[0], prefix)
  }

  lemma ConnectorIsNoUnit(prefix: string, text: string, connector: bool, last: bool)
    ensures !Starts(prefix + Connector(connector) + text, prefix + Unit(last))
  {
    assert (prefix + Connector(connector) + text)[|prefix|] == Connector(connector)[0];
    assert (prefix + Unit(last))[|prefix|] == Unit(last)[0];
  }

  lemma LineIsRead(item: Shown, prefix: string, last: bool)
    requires SlashFree(item)
    ensures
      var line := prefix + Connector(last) + Label(item);
      IsItemLine(line, prefix) && (Starts(line, prefix + Connector(true)) <==> last) &&
      line[|prefix| + 4..] == Label(item) &&
      (item.Branch? <==> Label(item) != [] && Label(item)[|Label(item)| - 1] == '/') &&
      (item.Branch? ==> Label(item)[..|Label(item)| - 1] == item.name)
  {
    var line := prefix + Connector(last) + Label(item);
    assert line[..|prefix| + 4] == prefix + Connector(last);
    assert line[|prefix|] == Connector(last)[0];
    if !last {
      assert (prefix + Connector(true))[|prefix|] == '└';
      assert !Starts(line, prefix + Connector(true));
    }
    if item.Leaf? && item.name != [] {
      assert item.name[|item.name| - 1] in item.name;
    }
  }

  lemma ForeignDeeper(lines: seq<string>, prefix: string, more: string)
    requires Foreign(lines, prefix)
    ensures Foreign(lines, prefix + more)
  {
    assert prefix <= prefix + more;
  }

  /** The first line drawn, the lines of the first item's own items, and the rest. */
  lemma RenderCons(items: seq<Shown>, prefix: string, tail: seq<string>)
    requires items != []
    ensures
      var item, last, lines := items[0], |items| == 1, Render(items, prefix) + tail;
      |lines| >= 1 && lines[0] == prefix + Connector(last) + Label(item) &&
      lines[1..] == (if item.Branch? then Render(item.items, prefix + Unit(last)) else []) +
                    (Render(items[1..], prefix) + tail)
  {
    var item, last := items[0], |items| == 1;
    var own := if item.Branch? then Render(item.items, prefix + Unit(last)) else [];
    Uncons(prefix + Connector(last) + Label(item), own, Render(items[1..], prefix), tail);
  }

  lemma Uncons<T>(x: T, a: seq<T>, b: seq<T>, c: seq<T>)
    ensures (([x] + a) + b) + c == [x] + (a + (b + c))
    ensures ([x] + (a + (b + c)))[1..] == a + (b + c)
  {}

  /**
    What is drawn under a prefix is read back item by item, up to the next line that belongs
    elsewhere.
  */
  lemma {:induction false} ParseRendered(items: seq<Shown>, prefix: string, tail: seq<string>)
    requires forall x :: x in items ==> SlashFree(x)
    requires items == [] ==> Foreign(tail, prefix)
    requires Foreign(tail, prefix + Unit(true))
    ensures Parse(Render(items, prefix) + tail, prefix) == (items, tail)
    decreases items
  {
    if items == [] {
      ParseNone(prefix, tail);
    } else {
      var item, last := items[0], |items| == 1;
      var rest := Render(items[1..], prefix) + tail;
      assert item in items && SlashFree(item);
      if !last {
        ParseRendered(items[1..], prefix, tail);
      }
      if item.Branch? {
        NextIsForeign(items[1..], prefix, tail, last);
        ForeignDeeper(rest, prefix + Unit(last), Unit(true));
        ParseRendered(item.items, prefix + Unit(last), rest);
      }
      RenderCons(items, prefix, tail);
      if last {
        assert items[1..] == [] && rest == tail;
      }
      ParseItem(Render(items, prefix) + tail, prefix, item, last, rest, items[1..], tail);
      HeadAndTail(items);
    }
  }

  lemma ParseNone(prefix: string, tail: seq<string>)
    requires Foreign(tail, prefix)
    ensures Parse(Render([], prefix) + tail, prefix) == ([], tail)
  {
    assert Render([], prefix) + tail == tail;
    assert prefix <= prefix + Connector(false) && prefix <= prefix + Connector(true);
  }

  lemma HeadAndTail<T>(xs: seq<T>)
    requires xs != []
    ensures xs == [xs[0]] + xs[1..]
  {}

  /** If an item's own items and the items behind it are read back, so is the whole. */
  lemma ParseItem(lines: seq<string>, prefix: string, item: Shown, last: bool, rest: seq<string>, more: seq<Shown>,
                  tail: seq<string>)
    requires SlashFree(item) && lines != [] && lines[0] == prefix + Connector(last) + Label(item)
    requires if item.Branch? then Parse(lines[1..], prefix + Unit(last)) == (item.items, rest)
             else lines[1..] == [] + rest
    requires if last then (more, rest) == ([], tail) else Parse(rest, prefix) == (more, tail)
    ensures Parse(lines, prefix) == ([item] + more, tail)
  {
    LineIsRead(item, prefix, last);
    assert [] + rest == rest && [item] + [] == [item];
  }

  lemma NextIsForeign(items: seq<Shown>, prefix: string, tail: seq<string>, last: bool)
    requires Foreign(tail, prefix + Unit(true)) && (last <==> items == [])
    ensures Foreign(Render(items, prefix) + tail, prefix + Unit(last))
  {
    if items == [] {
      assert Render(items, prefix) + tail == tail;
    } else {
      ConnectorIsNoUnit(prefix, Label(items[0]), |items| == 1, last);
      RenderCons(items, prefix, tail);
    }
  }

  /** The drawing determines the tree: read back, it gives every shown entry, in order and in place. */
  lemma DrawingDeterminesTree(items: seq<Shown>)
    requires forall x :: x in items ==> SlashFree(x)
    ensures Parse(Render(items, ""), "") == (items, [])
  {
    ParseRendered(items, "", []);
    assert Render(items, "") + [] == Render(items, "");
  }

  // ---------------------------------------------------------------------------------------
  // The walk.

  /** The names of the entries that os.walk does not report as directories. */
  function FileNames(es: seq<Entry>): seq<string> {
    if es == [] then [] else (if es[0].Dir? then [] else [es[0].name]) + FileNames(es[1..])
  }

  function Listed(ig: Ignore, root: string, names: seq<string>): seq<string> {
    if names == [] then []
    else (if names[0] in ig.files then [] else [Join(root, names[0])]) + Listed(ig, root, names[1..])
  }

  /** The walk of a directory: its files by name, then its directories in the order they were read. */
  function Walk(ig: Ignore, root: string, es: seq<Entry>): seq<string>
    decreases Sizes(es), 2
  {
    Listed(ig, root, SortNames(FileNames(es))) + WalkDirs(ig, root, es)
  }

  function WalkDirs(ig: Ignore, root: string, es: seq<Entry>): seq<string>
    decreases Sizes(es), 1
  {
    if es == [] then []
    else
      assert Sizes(es) == Size(es[0]) + Sizes(es[1..]) && Size(es[0]) >= 1;
      WalkEntry(ig, root, es[0]) + WalkDirs(ig, root, es[1..])
  }

  function WalkEntry(ig: Ignore, root: string, e: Entry): seq<string>
    decreases Size(e), 0
  {
    if e.Dir? && e.name !in ig.dirs then
      assert Size(e) == 1 + Sizes(e.entries);
      Walk(ig, Join(root, e.name), e.entries)
    else []
  }

  /** A path is the names on the way to it, with slashes between. */
  lemma JoinIs(root: string, name: string)
    ensures Join("", name) == name
    ensures root != "" ==> Join(root, name) == root + "/" + name
  {}

  /** The directories that are not ignored are walked in the order in which they were read. */
  lemma {:induction false} DirectoriesInTurn(ig: Ignore, root: string, es: seq<Entry>, e: Entry)
    ensures WalkDirs(ig, root, es + [e]) == WalkDirs(ig, root, es) +
              if e.Dir? && e.name !in ig.dirs then Walk(ig, Join(root, e.name), e.entries) else []
  {
    if es == [] {
      assert es + [e] == [e] && [e][1..] == [];
      assert WalkDirs(ig, root, []) == [];
    } else {
      assert (es + [e])[1..] == es[1..] + [e];
      DirectoriesInTurn(ig, root, es[1..], e);
    }
  }

  /** The names that are not ignored. */
  function Kept(ig: Ignore, names: seq<string>): (r: seq<string>)
    ensures forall name :: multiset(r)[name] == if name in ig.files then 0 else multiset(names)[name]
  {
    if names == [] then []
    else
      assert names == [names[0]] + names[1..];
      (if names[0] in ig.files then [] else [names[0]]) + Kept(ig, names[1..])
  }

  lemma {:induction false} KeptInOrder(ig: Ignore, names: seq<string>)
    requires NamesInOrder(names)
    ensures NamesInOrder(Kept(ig, names))
  {
    if names != [] {
      var rest := Kept(ig, names[1..]);
      KeptInOrder(ig, names[1..]);
      if names[0] !in ig.files && rest != [] {
        assert multiset(rest)[rest[0]] > 0 && rest[0] in names[1..];
        NameGoesFirst(names[0], rest);
      }
    }
  }

  lemma {:induction false} ListedIsKept(ig: Ignore, root: string, names: seq<string>)
    ensures |Listed(ig, root, names)| == |Kept(ig, names)|
    ensures forall k :: 0 <= k < |Kept(ig, names)| ==> Listed(ig, root, names)[k] == Join(root, Kept(ig, names)[k])
  {
    if names != [] {
      ListedIsKept(ig, root, names[1..]);
    }
  }

  /**
    The walk of a directory starts with its own files that are not ignored, by path, in the order of
    their names; what lies below its directories follows.
  */
  lemma OwnFilesComeFirst(ig: Ignore, root: string, es: seq<Entry>) returns (names: seq<string>)
    ensures NamesInOrder(names)
    ensures forall name :: multiset(names)[name] == if name in ig.files then 0 else multiset(FileNames(es))[name]
    ensures |names| <= |Walk(ig, root, es)| && Walk(ig, root, es)[|names|..] == WalkDirs(ig, root, es)
    ensures forall k :: 0 <= k < |names| ==> Walk(ig, root, es)[k] == Join(root, names[k])
  {
    var sorted := SortNames(FileNames(es));
    NamesAreSorted(FileNames(es));
    names := Kept(ig, sorted);
    KeptInOrder(ig, sorted);
    ListedIsKept(ig, root, sorted);
  }

  /** Directories still to be visited, the next one first. */
  type Agenda = seq<(string, seq<Entry>)>

  function Remaining(ig: Ignore, agenda: Agenda): seq<string> {
    if agenda == [] then [] else Walk(ig, agenda[0].0, agenda[0].1) + Remaining(ig, agenda[1..])
  }

  function Load(agenda: Agenda): nat {
    if agenda == [] then 0 else 1 + Sizes(agenda[0].1) + Load(agenda[1..])
  }

  /** The directories of a listing that are entered. */
  function Entered(ig: Ignore, root: string, es: seq<Entry>): Agenda {
    if es == [] then []
    else
      Entering(ig, root, es[0]) + Entered(ig, root, es[1..])
  }

  function Entering(ig: Ignore, root: string, e: Entry): (r: Agenda)
    ensures |r| <= 1 && (r != [] ==> e.Dir? && r[0] == (Join(root, e.name), e.entries))
  {
    if e.Dir? && e.name !in ig.dirs then [(Join(root, e.name), e.entries)] else []
  }

  lemma AgendaCons(ig: Ignore, next: (string, seq<Entry>), more: Agenda)
    ensures Remaining(ig, [next] + more) == Walk(ig, next.0, next.1) + Remaining(ig, more)
    ensures Load([next] + more) == 1 + Sizes(next.1) + Load(more)
  {
    assert ([next] + more)[1..] == more;
  }

  lemma EnteringRemains(ig: Ignore, root: string, e: Entry, more: Agenda)
    ensures Remaining(ig, Entering(ig, root, e) + more) == WalkEntry(ig, root, e) + Remaining(ig, more)
    ensures Load(Entering(ig, root, e) + more) <= Size(e) + Load(more)
  {
    var first := Entering(ig, root, e);
    if first == [] {
      assert first + more == more;
    } else {
      assert first == [(Join(root, e.name), e.entries)];
      AgendaCons(ig, first[0], more);
    }
  }

  lemma {:induction false} EnteredRemains(ig: Ignore, root: string, es: seq<Entry>, rest: Agenda)
    ensures Remaining(ig, Entered(ig, root, es) + rest) == WalkDirs(ig, root, es) + Remaining(ig, rest)
    ensures Load(Entered(ig, root, es) + rest) <= Sizes(es) + Load(rest)
  {
    if es == [] {
      assert Entered(ig, root, es) + rest == rest;
    } else {
      var more := Entered(ig, root, es[1..]) + rest;
      EnteredRemains(ig, root, es[1..], rest);
      EnteringRemains(ig, root, es[0], more);
      Regroup(Entering(ig, root, es[0]), Entered(ig, root, es[1..]), rest);
      Regroup(WalkEntry(ig, root, es[0]), WalkDirs(ig, root, es[1..]), Remaining(ig, rest));
    }
  }

  lemma Regroup<T>(a: seq<T>, b: seq<T>, c: seq<T>)
    ensures (a + b) + c == a + (b + c)
  {}

  lemma {:induction false} ListedSnoc(ig: Ignore, root: string, names: seq<string>, name: string)
    ensures Listed(ig, root, names + [name])
         == Listed(ig, root, names) + if name in ig.files then [] else [Join(root, name)]
  {
    if names == [] {
      assert names + [name] == [name] && [name][1..] == [];
    } else {
      assert (names + [name])[1..] == names[1..] + [name];
      ListedSnoc(ig, root, names[1..], name);
    }
  }

  /** The listing loop over one directory's sorted file names. */
  method ListFiles(ig: Ignore, root: string, names: seq<string>) returns (files: seq<string>)
    ensures files == Listed(ig, root, names)
  {
    files := [];
    for k := 0 to |names|
      invariant files == Listed(ig, root, names[..k])
    {
      assert names[..k + 1] == names[..k] + [names[k]];
      ListedSnoc(ig, root, names[..k], names[k]);
      if names[k] in ig.files {
        continue;
      }
      files := files + [Join(root, names[k])];
    }
    assert names[..|names|] == names;
  }

  /** The walk, as a loop over the directories still to be visited. */
  method GetFileList(ig: Ignore, es: seq<Entry>) returns (files: seq<string>)
    ensures files == Walk(ig, "", es)
  {
    files := [];
    var agenda: Agenda := [("", es)];
    AgendaCons(ig, ("", es), []);
    assert [("", es)] + [] == agenda;
    while agenda != []
      invariant files + Remaining(ig, agenda) == Walk(ig, "", es)
      decreases Load(agenda)
    {
      var (root, entries) := agenda[0];
      ghost var rest := agenda[1..];
      var here := ListFiles(ig, root, SortNames(FileNames(entries)));
      EnteredRemains(ig, root, entries, rest);
      Regroup(here, WalkDirs(ig, root, entries), Remaining(ig, rest));
      Regroup(files, here, Remaining(ig, Entered(ig, root, entries) + rest));
      files := files + here;
      agenda := Entered(ig, root, entries) + agenda[1..];
    }
  }

  // ---------------------------------------------------------------------------------------
  // The drawing and the walk agree on the files.

  /** The paths of the leaves a drawing shows. */
  function LeafPaths(root: string, items: seq<Shown>): multiset<string>
    decreases items
  {
    if items == [] then multiset{} else ItemPaths(root, items[0]) + LeafPaths(root, items[1..])
  }

  function ItemPaths(root: string, item: Shown): multiset<string>
    decreases item
  {
    match item
    case Branch(name, sub) => LeafPaths(Join(root, name), sub)
    case Leaf(name) => multiset{Join(root, name)}
  }

  /** Each entry's own contribution to the drawing, to the catalogue, and to the difference of the two. */
  datatype Part = Shows | Lists | Strays

  function Paths(ig: Ignore, part: Part, root: string, es: seq<Entry>): multiset<string>
    decreases Sizes(es), 1
  {
    if es == [] then multiset{}
    else
      assert Sizes(es) == Size(es[0]) + Sizes(es[1..]) && Size(es[0]) >= 1;
      EntryPaths(ig, part, root, es[0]) + Paths(ig, part, root, es[1..])
  }

  function EntryPaths(ig: Ignore, part: Part, root: string, e: Entry): multiset<string>
    decreases Size(e), 0
  {
    match e
    case Dir(name, entries) =>
      if name in ig.dirs then multiset{}
      else
        assert Size(e) == 1 + Sizes(entries);
        Paths(ig, part, Join(root, name), entries)
    case File(name) => if name in ig.files || part.Strays? then multiset{} else multiset{Join(root, name)}
    case Other(name) =>
      if (match part case Shows => true case Lists => name !in ig.files case Strays => name in ig.files)
      then multiset{Join(root, name)}
      else multiset{}
  }

  lemma {:induction false} InsertPaths(ig: Ignore, lower: string -> string, part: Part, root: string, e: Entry,
                                       es: seq<Entry>)
    ensures Paths(ig, part, root, Insert(lower, e, es)) == EntryPaths(ig, part, root, e) + Paths(ig, part, root, es)
  {
    var r := Insert(lower, e, es);
    if es == [] || !Before(lower, es[0], e) {
      assert r[1..] == es;
    } else {
      InsertPaths(ig, lower, part, root, e, es[1..]);
      assert r[1..] == Insert(lower, e, es[1..]);
    }
  }

  lemma {:induction false} SortPaths(ig: Ignore, lower: string -> string, part: Part, root: string, es: seq<Entry>)
    ensures Paths(ig, part, root, Sort(lower, es)) == Paths(ig, part, root, es)
  {
    if es != [] {
      SortPaths(ig, lower, part, root, es[1..]);
      InsertPaths(ig, lower, part, root, es[0], Sort(lower, es[1..]));
    }
  }

  /** The leaves drawn for a directory are what its entries show. */
  lemma {:induction false} DrawingShows(ig: Ignore, lower: string -> string, root: string, es: seq<Entry>)
    ensures LeafPaths(root, Show(ig, lower, es)) == Paths(ig, Shows, root, es)
    decreases Sizes(es), 2
  {
    SortPaths(ig, lower, Shows, root, es);
    SortedShows(ig, lower, root, Sort(lower, es));
  }

  lemma {:induction false} SortedShows(ig: Ignore, lower: string -> string, root: string, es: seq<Entry>)
    ensures LeafPaths(root, ShowSorted(ig, lower, es)) == Paths(ig, Shows, root, es)
    decreases Sizes(es), 1
  {
    if es != [] {
      assert Sizes(es) == Size(es[0]) + Sizes(es[1..]) && Size(es[0]) >= 1;
      SortedShows(ig, lower, root, es[1..]);
      EntryShows(ig, lower, root, es[0]);
      if Skipped(ig, es[0]) {
        assert ShowSorted(ig, lower, es) == ShowSorted(ig, lower, es[1..]);
      } else {
        LeafPathsCons(root, ShownEntry(ig, lower, es[0]), ShowSorted(ig, lower, es[1..]));
      }
    }
  }

  lemma LeafPathsCons(root: string, item: Shown, items: seq<Shown>)
    ensures LeafPaths(root, [item] + items) == ItemPaths(root, item) + LeafPaths(root, items)
  {
    assert ([item] + items)[1..] == items;
  }

  lemma EntryShows(ig: Ignore, lower: string -> string, root: string, e: Entry)
    ensures EntryPaths(ig, Shows, root, e)
         == if Skipped(ig, e) then multiset{} else ItemPaths(root, ShownEntry(ig, lower, e))
    decreases Size(e), 0
  {
    if e.Dir? && !Skipped(ig, e) {
      assert Size(e) == 1 + Sizes(e.entries);
      DrawingShows(ig, lower, Join(root, e.name), e.entries);
    }
  }

  /** The paths of a directory's own files, and of what lies below its directories. */
  function OwnPaths(ig: Ignore, root: string, names: seq<string>): multiset<string> {
    if names == [] then multiset{} else OwnPath(ig, root, names[0]) + OwnPaths(ig, root, names[1..])
  }

  function OwnPath(ig: Ignore, root: string, name: string): multiset<string> {
    if name in ig.files then multiset{} else multiset{Join(root, name)}
  }

  lemma OwnPathsCons(ig: Ignore, root: string, name: string, names: seq<string>)
    ensures OwnPaths(ig, root, [name] + names) == OwnPath(ig, root, name) + OwnPaths(ig, root, names)
  {
    assert ([name] + names)[1..] == names;
  }

  lemma {:induction false} OwnPathsSorted(ig: Ignore, root: string, name: string, names: seq<string>)
    ensures OwnPaths(ig, root, InsertName(name, names)) == OwnPath(ig, root, name) + OwnPaths(ig, root, names)
  {
    if names == [] || !TextLess(names[0], name) {
      OwnPathsCons(ig, root, name, names);
    } else {
      OwnPathsSorted(ig, root, name, names[1..]);
      OwnPathsCons(ig, root, names[0], InsertName(name, names[1..]));
    }
  }

  lemma {:induction false} ListedPaths(ig: Ignore, root: string, names: seq<string>)
    ensures multiset(Listed(ig, root, names)) == OwnPaths(ig, root, names)
  {
    if names != [] {
      ListedPaths(ig, root, names[1..]);
    }
  }

  lemma {:induction false} OwnPathsAnyOrder(ig: Ignore, root: string, names: seq<string>)
    ensures OwnPaths(ig, root, SortNames(names)) == OwnPaths(ig, root, names)
  {
    if names != [] {
      OwnPathsAnyOrder(ig, root, names[1..]);
      OwnPathsSorted(ig, root, names[0], SortNames(names[1..]));
    }
  }

  lemma {:induction false} WalkLists(ig: Ignore, root: string, es: seq<Entry>)
    ensures multiset(Walk(ig, root, es)) == Paths(ig, Lists, root, es)
    decreases Sizes(es), 2
  {
    var names := FileNames(es);
    OwnPathsAnyOrder(ig, root, names);
    ListedPaths(ig, root, SortNames(names));
    WalkDirsLists(ig, root, es);
  }

  /** A file entry adds to the directory's own paths, a directory entry to the walk below it. */
  lemma WalkEntryLists(ig: Ignore, root: string, e: Entry, names: seq<string>)
    ensures OwnPaths(ig, root, FileNames([e]) + names) + multiset(WalkEntry(ig, root, e))
         == EntryPaths(ig, Lists, root, e) + OwnPaths(ig, root, names)
    decreases Size(e), 0
  {
    assert [e][1..] == [];
    if e.Dir? {
      assert FileNames([e]) + names == names;
      assert Size(e) == 1 + Sizes(e.entries);
      if e.name !in ig.dirs {
        WalkLists(ig, Join(root, e.name), e.entries);
      }
    } else {
      assert FileNames([e]) + names == [e.name] + names && ([e.name] + names)[1..] == names;
    }
  }

  lemma WalkParts(ig: Ignore, root: string, es: seq<Entry>)
    requires es != []
    ensures FileNames(es) == FileNames([es[0]]) + FileNames(es[1..])
    ensures multiset(WalkDirs(ig, root, es))
         == multiset(WalkEntry(ig, root, es[0])) + multiset(WalkDirs(ig, root, es[1..]))
    ensures Paths(ig, Lists, root, es) == EntryPaths(ig, Lists, root, es[0]) + Paths(ig, Lists, root, es[1..])
    ensures Sizes(es) == Size(es[0]) + Sizes(es[1..]) && Size(es[0]) >= 1
  {
    assert [es[0]][1..] == [];
  }

  lemma {:induction false} WalkDirsLists(ig: Ignore, root: string, es: seq<Entry>)
    ensures OwnPaths(ig, root, FileNames(es)) + multiset(WalkDirs(ig, root, es)) == Paths(ig, Lists, root, es)
    decreases Sizes(es), 1
  {
    if es != [] {
      WalkParts(ig, root, es);
      WalkDirsLists(ig, root, es[1..]);
      WalkEntryLists(ig, root, es[0], FileNames(es[1..]));
      var here, below := multiset(WalkEntry(ig, root, es[0])), multiset(WalkDirs(ig, root, es[1..]));
      Exchange(OwnPaths(ig, root, FileNames(es)), here, below, EntryPaths(ig, Lists, root, es[0]),
               OwnPaths(ig, root, FileNames(es[1..])), Paths(ig, Lists, root, es[1..]));
    }
  }

  lemma Exchange<T>(own: multiset<T>, here: multiset<T>, below: multiset<T>,
                    entry: multiset<T>, rest: multiset<T>, paths: multiset<T>)
    requires own + here == entry + rest && rest + below == paths
    ensures own + (here + below) == entry + paths
  {
    assert own + (here + below) == (own + here) + below;
    assert (entry + rest) + below == entry + (rest + below);
  }

  lemma {:induction false} ShownIsListedAndStray(ig: Ignore, root: string, es: seq<Entry>)
    ensures Paths(ig, Shows, root, es) == Paths(ig, Lists, root, es) + Paths(ig, Strays, root, es)
    decreases Sizes(es), 1
  {
    if es != [] {
      assert Sizes(es) == Size(es[0]) + Sizes(es[1..]) && Size(es[0]) >= 1;
      ShownIsListedAndStray(ig, root, es[1..]);
      EntryIsListedAndStray(ig, root, es[0]);
    }
  }

  lemma EntryIsListedAndStray(ig: Ignore, root: string, e: Entry)
    ensures EntryPaths(ig, Shows, root, e) == EntryPaths(ig, Lists, root, e) + EntryPaths(ig, Strays, root, e)
    decreases Size(e), 0
  {
    if e.Dir? {
      assert Size(e) == 1 + Sizes(e.entries);
      ShownIsListedAndStray(ig, Join(root, e.name), e.entries);
    }
  }

  /**
    The drawing shows the files the walk lists, each exactly once, and besides them only entries
    that are neither files nor directories but bear an ignored file's name: the walk goes by the
    name alone, the drawing asks for a regular file.
  */
  lemma DrawingAndWalkAgree(ig: Ignore, lower: string -> string, es: seq<Entry>)
    ensures LeafPaths("", Show(ig, lower, es)) == multiset(Walk(ig, "", es)) + Paths(ig, Strays, "", es)
    ensures LeafPaths("", Show(ig, lower, es)) == multiset(Walk(ig, "", es))
       <==> Paths(ig, Strays, "", es) == multiset{}
  {
    DrawingShows(ig, lower, "", es);
    WalkLists(ig, "", es);
    ShownIsListedAndStray(ig, "", es);
    CancelUnion(multiset(Walk(ig, "", es)), Paths(ig, Strays, "", es));
  }

  /** A pipe or socket named .DS_Store is drawn but not listed. */
  lemma StrayIsDrawnOnly(lower: string -> string)
    ensures
      var es := [Other(".DS_Store")];
      LeafPaths("", Show(IGNORED, lower, es)) != multiset(Walk(IGNORED, "", es))
  {
    var es := [Other(".DS_Store")];
    DrawingAndWalkAgree(IGNORED, lower, es);
    assert es[1..] == [];
    assert ".DS_Store" in Paths(IGNORED, Strays, "", es);
  }

  lemma CancelUnion(a: multiset<string>, b: multiset<string>)
    ensures a + b == a <==> b == multiset{}
  {
    if a + b == a {
      assert forall x :: (a + b)[x] == a[x] + b[x];
      assert forall x :: b[x] == 0;
    }
  }

  predicate NamesSlashFree(e: Entry) {
    '/' !in e.name && (e.Dir? ==> forall x :: x in e.entries ==> NamesSlashFree(x))
  }

  lemma {:induction false} ShownSlashFree(ig: Ignore, lower: string -> string, es: seq<Entry>)
    requires forall e :: e in es ==> NamesSlashFree(e)
    ensures forall x :: x in Show(ig, lower, es) ==> SlashFree(x)
    decreases Sizes(es), 1
  {
    var sorted := Sort(lower, es);
    forall e | e in sorted
      ensures NamesSlashFree(e)
    {
      assert e in multiset(sorted) && e in multiset(es);
    }
    SortedSlashFree(ig, lower, sorted);
  }

  lemma {:induction false} SortedSlashFree(ig: Ignore, lower: string -> string, es: seq<Entry>)
    requires forall e :: e in es ==> NamesSlashFree(e)
    ensures forall x :: x in ShowSorted(ig, lower, es) ==> SlashFree(x)
    decreases Sizes(es), 0
  {
    if es != [] {
      assert Sizes(es) == Size(es[0]) + Sizes(es[1..]) && Size(es[0]) >= 1;
      SortedSlashFree(ig, lower, es[1..]);
      assert es[0] in es && NamesSlashFree(es[0]);
      if es[0].Dir? {
        assert Size(es[0]) == 1 + Sizes(es[0].entries);
        ShownSlashFree(ig, lower, es[0].entries);
      }
      assert SlashFree(ShownEntry(ig, lower, es[0]));
    }
  }

  /** The names of the directories that neither the drawing nor the walk enters. */
  lemma IgnoredDirectories(lower: string -> string, name: string, entries: seq<Entry>)
    ensures Show(IGNORED, lower, [Dir(name, entries)]) == [] <==>
              name in {".git", "__pycache__", ".idea", ".vscode", "node_modules", "vendor", "bin"}
  {
    ShowOne(IGNORED, lower, Dir(name, entries));
  }

  /** The names of the files that neither of them shows. */
  lemma IgnoredFiles(lower: string -> string, name: string)
    ensures Show(IGNORED, lower, [File(name)]) == [] <==> name in {".DS_Store", "project_manifest.md"}
    ensures Walk(IGNORED, "", [File(name)]) == [] <==> name in {".DS_Store", "project_manifest.md"}
  {
    ShowOne(IGNORED, lower, File(name));
    WalkOneFile(IGNORED, name);
  }

  lemma ShowOne(ig: Ignore, lower: string -> string, e: Entry)
    ensures |Show(ig, lower, [e])| == if Skipped(ig, e) then 0 else 1
  {
    assert [e][1..] == [];
    assert Sort(lower, []) == [] && Insert(lower, e, []) == [e];
    assert Sort(lower, [e]) == [e];
    assert ShowSorted(ig, lower, []) == [];
  }

  lemma WalkOneFile(ig: Ignore, name: string)
    ensures |Walk(ig, "", [File(name)])| == if name in ig.files then 0 else 1
  {
    var es := [File(name)];
    assert es[1..] == [] && FileNames([]) == [] && FileNames(es) == [name];
    var names := OwnFilesComeFirst(ig, "", es);
    OneName(ig, name, names);
    assert WalkEntry(ig, "", es[0]) == [] && WalkDirs(ig, "", es[1..]) == [];
  }

  lemma OneName(ig: Ignore, name: string, names: seq<string>)
    requires forall n :: multiset(names)[n] == if n in ig.files then 0 else multiset([name])[n]
    ensures |names| == if name in ig.files then 0 else 1
  {
    assert multiset(names) == if name in ig.files then multiset{} else multiset{name};
    assert |names| == |multiset(names)|;
  }

  /** From the drawn lines alone, the catalogued files can be told. */
  lemma CatalogueFromDrawing(ig: Ignore, lower: string -> string, es: seq<Entry>)
    requires forall e :: e in es ==> NamesSlashFree(e)
    requires Paths(ig, Strays, "", es) == multiset{}
    ensures LeafPaths("", Parse(Render(Show(ig, lower, es), ""), "").0) == multiset(Walk(ig, "", es))
  {
    ShownSlashFree(ig, lower, es);
    DrawingDeterminesTree(Show(ig, lower, es));
    DrawingAndWalkAgree(ig, lower, es);
  }
}
