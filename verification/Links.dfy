module Links {

  /* Names and links: sys_link, sys_unlink and create of sysfile.c over dirlookup,
     dirlink and iput of fs.c.  Every call is one step, except that link raises the count
     of its inode in one step and enters the name in a later one, with other calls in
     between. */

  const ROOT: nat := 1
  const MAXENTRIES: nat := 4480 // MAXFILE * BSIZE / sizeof(struct dirent)

  /** inum 0 is an unused entry. */
  datatype Entry = Entry(inum: nat, name: string)

  datatype Kind = Free | File | Dir | Dev

  /** refs counts the references that open files, current directories and calls in
      progress have; entries is what a directory holds. */
  datatype Node = Node(kind: Kind, nlink: nat, refs: nat, entries: seq<Entry>)

  /** pending holds the inodes whose link calls have not entered the name yet. */
  datatype System = System(nodes: seq<Node>, pending: multiset<nat>)

  datatype Action =
    | Hold(i: nat)                          // namei: open, exec, chdir
    | Drop(i: nat)                          // iput
    | LinkBegin(i: nat)
    | LinkEnd(i: nat, dp: nat, name: string)
    | LinkFail(i: nat)                      // no directory for the new name
    | Unlink(dp: nat, name: string)
    | Create(dp: nat, name: string, kind: Kind)

  // ----- Directories ----------------------------------------------------------

  predicate Matches(e: Entry, name: string) {
    e.inum != 0 && e.name == name
  }

  /** dirlookup: the first entry with the name, or the number of entries. */
  function Lookup(es: seq<Entry>, name: string): (k: nat)
    ensures k <= |es| && (k < |es| ==> Matches(es[k], name))
    ensures forall j :: 0 <= j < k ==> !Matches(es[j], name)
  {
    LookupFrom(es, name, 0)
  }

  function LookupFrom(es: seq<Entry>, name: string, from: nat): (k: nat)
    requires from <= |es|
    ensures from <= k <= |es| && (k < |es| ==> Matches(es[k], name))
    ensures forall j :: from <= j < k ==> !Matches(es[j], name)
    decreases |es| - from
  {
    if from == |es| || Matches(es[from], name) then from else LookupFrom(es, name, from + 1)
  }

  /** dirlink: the first unused entry, or the number of entries. */
  function Unused(es: seq<Entry>, from: nat := 0): (k: nat)
    requires from <= |es|
    ensures from <= k <= |es| && (k < |es| ==> es[k].inum == 0)
    ensures forall j :: from <= j < k ==> es[j].inum != 0
    decreases |es| - from
  {
    if from == |es| || es[from].inum == 0 then from else Unused(es, from + 1)
  }

  /** dirlink stores the entry there. */
  function Entered(es: seq<Entry>, e: Entry): seq<Entry> {
    var k := Unused(es);
    if k < |es| then es[k := e] else es + [e]
  }

  /** The directory has no room for another entry: writei fails and dirlink panics. */
  predicate Packed(es: seq<Entry>) {
    |es| >= MAXENTRIES && Unused(es) == |es|
  }

  /** isdirempty. */
  predicate Empty(es: seq<Entry>) {
    forall k :: 2 <= k < |es| ==> es[k].inum == 0
  }

  /** ialloc: the first free inode from 1 on, or the number of inodes. */
  function FreeInode(nodes: seq<Node>, from: nat): (i: nat)
    requires from <= |nodes|
    ensures from <= i <= |nodes| && (i < |nodes| ==> nodes[i].kind == Free)
    ensures forall j :: from <= j < i ==> nodes[j].kind != Free
    decreases |nodes| - from
  {
    if from == |nodes| || nodes[from].kind == Free then from else FreeInode(nodes, from + 1)
  }

  // ----- Steps ----------------------------------------------------------------

  predicate IsDir(s: System, d: nat) {
    d < |s.nodes| && s.nodes[d].kind == Dir
  }

  /** A directory that has not been removed. */
  predicate Live(s: System, d: nat) {
    IsDir(s, d) && s.nodes[d].nlink != 0
  }

  predicate NamedBy(s: System, i: nat, d: nat, k: nat) {
    Live(s, d) && k < |s.nodes[d].entries| && s.nodes[d].entries[k].inum == i
  }

  /** A path leads to i, every directory on it being live. */
  ghost predicate Named(s: System, i: nat) {
    i == ROOT || exists d: nat, k: nat :: NamedBy(s, i, d, k)
  }

  /** What the source asks of a call.  Panics are not steps. */
  ghost predicate Enabled(s: System, a: Action) {
    match a
    case Hold(i) => 0 < i < |s.nodes| && (Named(s, i) || s.nodes[i].refs > 0)
    case Drop(i) => i < |s.nodes| && s.nodes[i].refs > s.pending[i]
    case LinkBegin(i) => i < |s.nodes| && s.nodes[i].refs > s.pending[i] && s.nodes[i].kind != Dir
    case LinkEnd(i, dp, name) =>
      i in s.pending && IsDir(s, dp) &&
      (Lookup(s.nodes[dp].entries, name) < |s.nodes[dp].entries| || !Packed(s.nodes[dp].entries))
    case LinkFail(i) => i in s.pending
    case Unlink(dp, name) => IsDir(s, dp)
    case Create(dp, name, kind) =>
      IsDir(s, dp) && kind != Free && |s.nodes| > 1 &&
      (Lookup(s.nodes[dp].entries, name) < |s.nodes[dp].entries| ||
       (FreeInode(s.nodes, 1) < |s.nodes| && !Packed(s.nodes[dp].entries)))
  }

  function Freed(): Node {
    Node(Free, 0, 0, [])
  }

  /** iput: the last reference to an inode without links frees it. */
  function Put(n: Node): Node {
    if n.refs <= 1 && n.nlink == 0 then Freed() else n.(refs := if n.refs == 0 then 0 else n.refs - 1)
  }

  function AddLinks(n: Node, delta: int): Node {
    n.(nlink := if n.nlink + delta < 0 then 0 else n.nlink + delta)
  }

  function DoUnlink(s: System, dp: nat, name: string): System
    requires IsDir(s, dp)
  {
    var es := s.nodes[dp].entries;
    var k := Lookup(es, name);
    if name == "." || name == ".." || k == |es| || es[k].inum >= |s.nodes| then s
    else
      var ip := es[k].inum;
      var n := s.nodes[ip];
      if n.kind == Dir && !Empty(n.entries) then s
      else
        var nodes := s.nodes[dp := s.nodes[dp].(entries := es[k := Entry(0, "")])];
        var nodes := if n.kind == Dir then nodes[dp := AddLinks(nodes[dp], -1)] else nodes;
        // dirlookup took a reference, and iput gives it back.
        var n := AddLinks(nodes[ip], -1);
        s.(nodes := nodes[ip := Put(n.(refs := n.refs + 1))])
  }

  function DoCreate(s: System, dp: nat, name: string, kind: Kind): System
    requires IsDir(s, dp) && |s.nodes| > 1
  {
    var es := s.nodes[dp].entries;
    var k := Lookup(es, name);
    if k < |es| then
      var ip := es[k].inum;
      if ip < |s.nodes| && kind == File && s.nodes[ip].kind == File
      then s.(nodes := s.nodes[ip := s.nodes[ip].(refs := s.nodes[ip].refs + 1)])
      else s
    else
      var ip := FreeInode(s.nodes, 1);
      if ip == |s.nodes| then s
      else
        var n := Node(kind, 1, 1, if kind == Dir then [Entry(ip, "."), Entry(dp, "..")] else []);
        var d := s.nodes[dp].(entries := Entered(es, Entry(ip, name)));
        s.(nodes := s.nodes[ip := n][dp := if kind == Dir then AddLinks(d, 1) else d])
  }

  function DoLinkEnd(s: System, i: nat, dp: nat, name: string): System
    requires IsDir(s, dp) && i < |s.nodes|
  {
    var es := s.nodes[dp].entries;
    var t := s.(pending := s.pending - multiset{i});
    if Lookup(es, name) < |es|
    then t.(nodes := s.nodes[i := AddLinks(s.nodes[i], -1)])
    else t.(nodes := s.nodes[dp := s.nodes[dp].(entries := Entered(es, Entry(i, name)))])
  }

  ghost function Do(s: System, a: Action): System
    requires Enabled(s, a)
  {
    match a
    case Hold(i) => s.(nodes := s.nodes[i := s.nodes[i].(refs := s.nodes[i].refs + 1)])
    case Drop(i) => s.(nodes := s.nodes[i := Put(s.nodes[i])])
    case LinkBegin(i) =>
      System(s.nodes[i := AddLinks(s.nodes[i], 1)], s.pending + multiset{i})
    case LinkEnd(i, dp, name) => if i < |s.nodes| then DoLinkEnd(s, i, dp, name) else s
    case LinkFail(i) =>
      if i < |s.nodes| then System(s.nodes[i := AddLinks(s.nodes[i], -1)], s.pending - multiset{i}) else s
    case Unlink(dp, name) => DoUnlink(s, dp, name)
    case Create(dp, name, kind) => DoCreate(s, dp, name, kind)
  }

  ghost predicate Feasible(s: System, run: seq<Action>)
    decreases |run|
  {
    run == [] || (Enabled(s, run[0]) && Feasible(Do(s, run[0]), run[1..]))
  }

  ghost function Exec(s: System, run: seq<Action>): System
    requires Feasible(s, run)
    decreases |run|
  {
    if run == [] then s else Exec(Do(s, run[0]), run[1..])
  }

  // ----- Invariants -----------------------------------------------------------

  /** Entry k of live directory d counts as a link to i. */
  predicate Counts(s: System, i: nat, d: nat, k: nat) {
    NamedBy(s, i, d, k) && s.nodes[d].entries[k].name != "."
  }

  ghost function Names(s: System, i: nat): (r: set<(nat, nat)>)
    ensures forall d: nat, k: nat :: (d, k) in r <==> Counts(s, i, d, k)
  {
    set d: nat, k: nat | d < |s.nodes| && k < |s.nodes[d].entries| && Counts(s, i, d, k) :: (d, k)
  }

  /** The count of an inode is the number of its names, and of its names to come. */
  ghost predicate LinkRight(s: System, i: nat) {
    0 < i < |s.nodes| ==> s.nodes[i].nlink == |Names(s, i)| + s.pending[i]
  }

  ghost predicate LinksRight(s: System) {
    forall i: nat :: LinkRight(s, i)
  }

  predicate DirRight(s: System, d: nat)
    requires d < |s.nodes|
  {
    var n := s.nodes[d];
    if n.kind != Dir then n.entries == []
    else
      && |n.entries| >= 2
      && n.entries[0] == Entry(d, ".") && n.entries[1].name == ".." && n.entries[1].inum != 0
      && (forall k :: 0 <= k < |n.entries| ==> n.entries[k].inum < |s.nodes|)
      && (forall k :: 2 <= k < |n.entries| && n.entries[k].inum != 0 ==>
            n.entries[k].name != "." && n.entries[k].name != "..")
      && (n.nlink == 0 ==> Empty(n.entries))
  }

  /** Inode 0 is not used, and an inode is free when nothing links or refers to it. */
  predicate NodeRight(s: System, i: nat)
    requires i < |s.nodes|
  {
    var n := s.nodes[i];
    && DirRight(s, i)
    && (n.kind == Free <==> n.nlink == 0 && n.refs == 0)
    && s.pending[i] <= n.refs
    && (n.kind == Dir ==> s.pending[i] == 0)
  }

  /** What directory d calls "..". */
  function Parent(s: System, d: nat): nat {
    if d < |s.nodes| && |s.nodes[d].entries| >= 2 then s.nodes[d].entries[1].inum else 0
  }

  /** A live directory other than the root has one name, and has it in its parent;
      the root has none. */
  ghost predicate Tree(s: System) {
    && (forall d: nat :: d < |s.nodes| ==> DirRight(s, d))
    && Live(s, ROOT) && Parent(s, ROOT) == ROOT
    && (forall i: nat, d: nat, k: nat :: Live(s, i) && k >= 2 && Counts(s, i, d, k) ==> i != ROOT && Parent(s, i) == d)
    && (forall i: nat, d: nat, k: nat, l: nat ::
          Live(s, i) && k >= 2 && l >= 2 && Counts(s, i, d, k) && Counts(s, i, d, l) ==> k == l)
    && (forall i: nat :: HasName(s, i))
  }

  ghost predicate HasName(s: System, i: nat) {
    Live(s, i) && i != ROOT ==> exists k: nat :: k >= 2 && Counts(s, i, Parent(s, i), k)
  }

  ghost predicate Inv(s: System) {
    && |s.nodes| > 1 && s.nodes[0] == Freed()
    && (forall i :: i in s.pending ==> 0 < i < |s.nodes|)
    && (forall i: nat :: i < |s.nodes| ==> NodeRight(s, i))
    && Tree(s)
    && LinksRight(s)
  }

  // ----- Counting names -------------------------------------------------------

  lemma NamesEqual(s: System, t: System, i: nat)
    requires forall d: nat, k: nat :: Counts(t, i, d, k) <==> Counts(s, i, d, k)
    ensures Names(t, i) == Names(s, i)
  {
  }

  /** t has one name of i more. */
  lemma NamesPlus(s: System, t: System, i: nat, d: nat, k: nat)
    requires Counts(t, i, d, k) && !Counts(s, i, d, k)
    requires forall x: nat, y: nat :: x != d || y != k ==> (Counts(t, i, x, y) <==> Counts(s, i, x, y))
    ensures |Names(t, i)| == |Names(s, i)| + 1
  {
    assert Names(t, i) == Names(s, i) + {(d, k)};
  }

  /** The live directories are the same, with the same entries. */
  ghost predicate SameDirs(s: System, t: System) {
    && |t.nodes| == |s.nodes|
    && forall d: nat :: (Live(t, d) <==> Live(s, d)) && (Live(s, d) ==> t.nodes[d].entries == s.nodes[d].entries)
  }

  lemma SameNames(s: System, t: System)
    requires SameDirs(s, t)
    ensures forall i: nat, d: nat, k: nat :: Counts(t, i, d, k) <==> Counts(s, i, d, k)
    ensures forall i: nat :: Names(t, i) == Names(s, i)
  {
  }

  lemma SameTree(s: System, t: System)
    requires Tree(s) && SameDirs(s, t) && forall d: nat :: d < |t.nodes| ==> DirRight(t, d)
    ensures Tree(t)
  {
    SameNames(s, t);
    forall i: nat
      ensures HasName(t, i)
    {
      assert HasName(s, i);
      if Live(t, i) && i != ROOT {
        var k: nat :| k >= 2 && Counts(s, i, Parent(s, i), k);
        assert Counts(t, i, Parent(t, i), k);
      }
    }
  }

  /** An entry of a live directory is a link, so its inode is not free. */
  lemma NamedIsNotFree(s: System, i: nat, d: nat, k: nat)
    requires Inv(s) && i != 0 && NamedBy(s, i, d, k)
    ensures 0 < i < |s.nodes| && s.nodes[i].kind != Free && (Counts(s, i, d, k) ==> s.nodes[i].nlink > 0)
  {
    assert NodeRight(s, d) && NodeRight(s, i) && LinkRight(s, i);
    if Counts(s, i, d, k) {
      assert (d, k) in Names(s, i);
    }
  }

  /** A step that changes counts and references only. */
  lemma SameNamesStep(s: System, t: System)
    requires Inv(s) && SameDirs(s, t) && t.nodes[0] == Freed() && forall i :: i in t.pending ==> 0 < i < |t.nodes|
    requires forall i: nat :: i < |t.nodes| ==> NodeRight(t, i)
    requires forall i :: 0 < i < |s.nodes| ==> t.nodes[i].nlink - t.pending[i] == s.nodes[i].nlink - s.pending[i]
    ensures Inv(t)
  {
    SameNames(s, t);
    forall i: nat
      ensures LinkRight(t, i) && (i < |t.nodes| ==> DirRight(t, i))
    {
      assert LinkRight(s, i) && (i < |t.nodes| ==> NodeRight(t, i));
    }
    SameTree(s, t);
  }

  // ----- Steps that enter and remove no name ----------------------------------

  lemma QuietStep(s: System, a: Action)
    requires Inv(s) && Enabled(s, a)
    requires a.Hold? || a.Drop? || a.LinkBegin? || a.LinkFail?
    ensures Inv(Do(s, a))
  {
    var t := Do(s, a);
    forall j: nat | j < |t.nodes|
      ensures NodeRight(t, j)
    {
      QuietNode(s, a, j);
    }
    assert NodeRight(s, a.i) && LinkRight(s, a.i);
    SameNamesStep(s, t);
  }

  lemma QuietNode(s: System, a: Action, j: nat)
    requires Inv(s) && Enabled(s, a) && j < |s.nodes|
    requires a.Hold? || a.Drop? || a.LinkBegin? || a.LinkFail?
    ensures |Do(s, a).nodes| == |s.nodes| && NodeRight(Do(s, a), j)
  {
    var i := a.i;
    assert NodeRight(s, j) && NodeRight(s, i) && LinkRight(s, i);
    if a.Hold? && s.nodes[i].refs == 0 && i != ROOT {
      var d: nat, k: nat :| NamedBy(s, i, d, k);
      NamedIsNotFree(s, i, d, k);
    }
  }

  // ----- Steps that enter a name ----------------------------------------------

  lemma EnteredAt(es: seq<Entry>, e: Entry)
    ensures var k, r := Unused(es), Entered(es, e);
            && k < |r| && |es| <= |r| <= |es| + 1 && (|r| == |es| + 1 ==> k == |es|)
            && forall l :: 0 <= l < |r| ==> r[l] == if l == k then e else es[l]
  {
  }

  /** dirlink into directory dp, live or not, of an inode that is there: the directory
      stays well formed, and of the names only the new one is different. */
  lemma EnterName(s: System, t: System, dp: nat, i: nat, name: string)
    requires Inv(s) && IsDir(s, dp) && 0 < i < |s.nodes| == |t.nodes|
    requires Lookup(s.nodes[dp].entries, name) == |s.nodes[dp].entries|
    requires t.nodes[dp].entries == Entered(s.nodes[dp].entries, Entry(i, name)) && t.nodes[dp].kind == Dir
    ensures var k := Unused(s.nodes[dp].entries);
            && 2 <= k < |t.nodes[dp].entries| && name != "." && name != ".."
            && (t.nodes[dp].nlink != 0 ==> DirRight(t, dp) && Counts(t, i, dp, k))
            && (forall l :: 0 <= l < |t.nodes[dp].entries| && l != k ==>
                  l < |s.nodes[dp].entries| && t.nodes[dp].entries[l] == s.nodes[dp].entries[l])
            && (forall j: nat :: j != 0 ==> !Counts(s, j, dp, k))
  {
    var es := s.nodes[dp].entries;
    assert NodeRight(s, dp);
    EnteredAt(es, Entry(i, name));
    assert Matches(es[0], ".") && Matches(es[1], "..");
  }

  /** t has the names of s, and entry k of directory dp as a name of i besides. */
  ghost predicate OneNameMore(s: System, t: System, i: nat, dp: nat, k: nat) {
    && |t.nodes| == |s.nodes| && i != 0 && k >= 2
    && Counts(t, i, dp, k)
    && (forall j: nat :: j != i ==> !Counts(t, j, dp, k))
    && (forall j: nat :: j != 0 ==> !Counts(s, j, dp, k))
    && (forall j: nat, d: nat, l: nat :: (d != dp || l != k) && j != 0 ==> (Counts(t, j, d, l) <==> Counts(s, j, d, l)))
  }

  lemma OneNameMoreNames(s: System, t: System, i: nat, dp: nat, k: nat, j: nat)
    requires OneNameMore(s, t, i, dp, k) && j != 0
    ensures |Names(t, j)| == |Names(s, j)| + if j == i then 1 else 0
  {
    if j == i {
      NamesPlus(s, t, i, dp, k);
    } else {
      NamesEqual(s, t, j);
    }
  }

  /** The tree of directories does not depend on the names of other inodes. */
  lemma OneNameMoreTree(s: System, t: System, i: nat, dp: nat, k: nat)
    requires Tree(s) && OneNameMore(s, t, i, dp, k) && !IsDir(s, i) && !IsDir(s, 0)
    requires forall d: nat :: d < |t.nodes| ==> DirRight(t, d)
    requires forall d: nat :: Live(t, d) <==> Live(s, d)
    requires forall d: nat :: Live(s, d) ==> Parent(t, d) == Parent(s, d)
    ensures Tree(t)
  {
    forall j: nat
      ensures HasName(t, j)
    {
      assert HasName(s, j);
      if Live(t, j) && j != ROOT {
        var l: nat :| l >= 2 && Counts(s, j, Parent(s, j), l);
        assert Counts(t, j, Parent(t, j), l);
      }
    }
  }

  lemma LinkIntoLive(s: System, i: nat, dp: nat, name: string)
    requires Inv(s) && Enabled(s, LinkEnd(i, dp, name)) && Lookup(s.nodes[dp].entries, name) == |s.nodes[dp].entries|
    requires Live(s, dp)
    ensures Inv(Do(s, LinkEnd(i, dp, name)))
  {
    var t := Do(s, LinkEnd(i, dp, name));
    var k := Unused(s.nodes[dp].entries);
    EnterName(s, t, dp, i, name);
    assert NodeRight(s, i);
    assert OneNameMore(s, t, i, dp, k);
    forall j: nat
      ensures LinkRight(t, j) && (j < |t.nodes| ==> NodeRight(t, j) && DirRight(t, j))
    {
      assert LinkRight(s, j) && (j < |t.nodes| ==> NodeRight(s, j));
      if j != 0 {
        OneNameMoreNames(s, t, i, dp, k, j);
      }
    }
    OneNameMoreTree(s, t, i, dp, k);
  }

  /** In a removed directory the new name does not count. */
  lemma LinkIntoRemoved(s: System, i: nat, dp: nat, name: string)
    requires Inv(s) && Enabled(s, LinkEnd(i, dp, name)) && Lookup(s.nodes[dp].entries, name) == |s.nodes[dp].entries|
    requires !Live(s, dp)
    ensures !LinkRight(Do(s, LinkEnd(i, dp, name)), i)
  {
    var t := Do(s, LinkEnd(i, dp, name));
    assert LinkRight(s, i);
    NamesEqual(s, t, i);
  }

  // ----- create ---------------------------------------------------------------

  /** A free inode has no names and no links to come. */
  lemma FreeHasNone(s: System, i: nat)
    requires Inv(s) && 0 < i < |s.nodes| && s.nodes[i].kind == Free
    ensures s.nodes[i].nlink == 0 && s.nodes[i].refs == 0 && s.pending[i] == 0 && s.nodes[i].entries == []
    ensures forall d: nat, k: nat :: !Counts(s, i, d, k)
  {
    assert NodeRight(s, i) && LinkRight(s, i);
    assert Names(s, i) == {};
    forall d: nat, k: nat
      ensures !Counts(s, i, d, k)
    {
      assert (d, k) !in Names(s, i);
    }
  }

  /** The new inode has its name; a new directory is a name of its parent too. */
  ghost predicate Created(s: System, t: System, i: nat, dp: nat, k: nat, kind: Kind) {
    && Inv(s) && Live(s, dp) && 0 < i < |s.nodes| == |t.nodes| && s.nodes[i].kind == Free && t.pending == s.pending
    && k >= 2 && kind != Free && (forall d: nat :: d < |t.nodes| ==> NodeRight(t, d)) && t.nodes[0] == Freed()
    && (forall d: nat :: Live(t, d) <==> Live(s, d) || (d == i && kind == Dir))
    && (forall d: nat :: Live(s, d) ==> Parent(t, d) == Parent(s, d)) && (kind == Dir ==> Parent(t, i) == dp)
    && (forall d: nat :: d < |t.nodes| && d != i ==>
          t.nodes[d].nlink == s.nodes[d].nlink + if d == dp && kind == Dir then 1 else 0)
    && t.nodes[i].nlink == 1
    && (forall j: nat :: j != 0 ==> !Counts(s, j, dp, k))
    && (forall j: nat, d: nat, l: nat :: j != 0 ==>
          (Counts(t, j, d, l) <==>
           if d == dp && l == k then j == i else if d == i then kind == Dir && l == 1 && j == dp else Counts(s, j, d, l)))
  }

  lemma CreatedNames(s: System, t: System, i: nat, dp: nat, k: nat, kind: Kind, j: nat)
    requires Created(s, t, i, dp, k, kind)
    ensures LinkRight(t, j)
  {
    FreeHasNone(s, i);
    assert LinkRight(s, j);
    if j == i {
      NamesPlus(s, t, i, dp, k);
    } else if j == dp && kind == Dir {
      NamesPlus(s, t, dp, i, 1);
    } else if j != 0 {
      NamesEqual(s, t, j);
    }
  }

  lemma CreatedTree(s: System, t: System, i: nat, dp: nat, k: nat, kind: Kind)
    requires Created(s, t, i, dp, k, kind)
    ensures Tree(t)
  {
    FreeHasNone(s, i);
    forall j: nat
      ensures j < |t.nodes| ==> DirRight(t, j)
    {
      assert j < |t.nodes| ==> NodeRight(t, j);
    }
    forall j: nat
      ensures HasName(t, j)
    {
      assert HasName(s, j);
      if j == i && kind == Dir {
        assert Counts(t, i, dp, k);
      } else if Live(t, j) && j != ROOT {
        var l: nat :| l >= 2 && Counts(s, j, Parent(s, j), l);
        assert Counts(t, j, Parent(t, j), l);
      }
    }
  }

  /** What create does to a node when the name is new. */
  lemma CreateNodes(s: System, dp: nat, name: string, kind: Kind)
    requires Inv(s) && Enabled(s, Create(dp, name, kind)) && Lookup(s.nodes[dp].entries, name) == |s.nodes[dp].entries|
    requires Live(s, dp)
    ensures forall j: nat :: j < |s.nodes| ==> NodeRight(Do(s, Create(dp, name, kind)), j)
  {
    var t := Do(s, Create(dp, name, kind));
    var i := FreeInode(s.nodes, 1);
    FreeHasNone(s, i);
    EnterName(s, t, dp, i, name);
    forall j: nat | j < |t.nodes|
      ensures NodeRight(t, j)
    {
      assert NodeRight(s, j);
    }
  }

  lemma CreateIsCreated(s: System, dp: nat, name: string, kind: Kind)
    requires Inv(s) && Enabled(s, Create(dp, name, kind)) && Lookup(s.nodes[dp].entries, name) == |s.nodes[dp].entries|
    requires Live(s, dp)
    ensures Created(s, Do(s, Create(dp, name, kind)), FreeInode(s.nodes, 1), dp, Unused(s.nodes[dp].entries), kind)
  {
    var t := Do(s, Create(dp, name, kind));
    var k, i := Unused(s.nodes[dp].entries), FreeInode(s.nodes, 1);
    FreeHasNone(s, i);
    EnterName(s, t, dp, i, name);
    CreateNodes(s, dp, name, kind);
    forall j: nat, d: nat, l: nat | j != 0
      ensures Counts(t, j, d, l) <==>
              if d == dp && l == k then j == i else if d == i then kind == Dir && l == 1 && j == dp else Counts(s, j, d, l)
    {
    }
  }

  lemma CreateInLive(s: System, dp: nat, name: string, kind: Kind)
    requires Inv(s) && Enabled(s, Create(dp, name, kind)) && Lookup(s.nodes[dp].entries, name) == |s.nodes[dp].entries|
    requires Live(s, dp)
    ensures Inv(Do(s, Create(dp, name, kind)))
  {
    var t := Do(s, Create(dp, name, kind));
    var k, i := Unused(s.nodes[dp].entries), FreeInode(s.nodes, 1);
    CreateIsCreated(s, dp, name, kind);
    forall j: nat
      ensures LinkRight(t, j)
    {
      CreatedNames(s, t, i, dp, k, kind, j);
    }
    CreatedTree(s, t, i, dp, k, kind);
  }

  /** In a removed directory neither the name of a new file counts, nor are the names
      of the directory itself put right when it gets a subdirectory. */
  lemma CreateInRemoved(s: System, dp: nat, name: string, kind: Kind)
    requires Inv(s) && Enabled(s, Create(dp, name, kind)) && Lookup(s.nodes[dp].entries, name) == |s.nodes[dp].entries|
    requires !Live(s, dp)
    ensures !LinksRight(Do(s, Create(dp, name, kind)))
  {
    var t := Do(s, Create(dp, name, kind));
    var k, i := Unused(s.nodes[dp].entries), FreeInode(s.nodes, 1);
    FreeHasNone(s, i);
    EnterName(s, t, dp, i, name);
    assert NodeRight(s, dp);
    var p := Parent(s, dp);
    if kind != Dir {
      NamesEqual(s, t, i);
      assert LinkRight(s, i) && !LinkRight(t, i);
    } else if p == i || p == dp {
      assert Counts(t, p, dp, 1) && (p == i ==> Counts(t, p, dp, k)) && (p == dp ==> Counts(t, p, i, 1));
      AtLeastTwo(Names(t, p), (dp, 1), if p == i then (dp, k) else (i, 1));
      assert !LinkRight(t, p);
    } else {
      assert LinkRight(s, p);
      NamesPlus(s, t, p, dp, 1);
      assert !LinkRight(t, p);
    }
  }

  lemma AtLeastTwo<T>(a: set<T>, x: T, y: T)
    requires x in a && y in a && x != y
    ensures |a| >= 2
  {
    assert a == {x, y} + (a - {x, y});
  }

  // ----- unlink ---------------------------------------------------------------

  /** sys_unlink changes something exactly when the name is found and stands for an
      inode that is not a directory, or for an empty one. */
  predicate Unlinks(s: System, dp: nat, name: string)
    requires IsDir(s, dp)
  {
    var es := s.nodes[dp].entries;
    var k := Lookup(es, name);
    && name != "." && name != ".." && k < |es| && es[k].inum < |s.nodes|
    && (s.nodes[es[k].inum].kind == Dir ==> Empty(s.nodes[es[k].inum].entries))
  }

  /** A removed directory has no names left, so the directory is live, and the panic
      on a count below 1 is out of the question. */
  lemma UnlinkNeverPanics(s: System, dp: nat, name: string)
    requires Inv(s) && IsDir(s, dp) && name != "." && name != ".."
    requires Lookup(s.nodes[dp].entries, name) < |s.nodes[dp].entries|
    ensures var k := Lookup(s.nodes[dp].entries, name); var ip := s.nodes[dp].entries[k].inum;
            k >= 2 && Live(s, dp) && 0 < ip < |s.nodes| && Counts(s, ip, dp, k) && s.nodes[ip].nlink >= 1
  {
    var k := Lookup(s.nodes[dp].entries, name);
    assert NodeRight(s, dp);
    NamedIsNotFree(s, s.nodes[dp].entries[k].inum, dp, k);
  }

  lemma OneNameLessTree(s: System, t: System, i: nat, dp: nat, k: nat)
    requires Tree(s) && OneNameMore(t, s, i, dp, k) && !IsDir(s, i) && !IsDir(s, 0)
    requires forall d: nat :: d < |t.nodes| ==> DirRight(t, d)
    requires forall d: nat :: Live(t, d) <==> Live(s, d)
    requires forall d: nat :: Live(s, d) ==> Parent(t, d) == Parent(s, d)
    ensures Tree(t)
  {
    forall j: nat
      ensures HasName(t, j)
    {
      assert HasName(s, j);
      if Live(t, j) && j != ROOT {
        var l: nat :| l >= 2 && Counts(s, j, Parent(s, j), l);
        assert Counts(t, j, Parent(t, j), l);
      }
    }
  }

  /** The entry that names an empty directory is its only link, and the directory of
      that entry is the one it calls its parent, which has another link. */
  lemma EmptyHasOneName(s: System, i: nat, dp: nat, k: nat)
    requires Inv(s) && Live(s, i) && Empty(s.nodes[i].entries) && k >= 2 && Counts(s, i, dp, k)
    ensures s.nodes[i].nlink == 1 && i != dp && Parent(s, i) == dp && i != ROOT && s.nodes[dp].nlink >= 2
    ensures forall d: nat, l: nat :: Counts(s, i, d, l) <==> d == dp && l == k
  {
    assert NodeRight(s, i) && LinkRight(s, i) && LinkRight(s, dp) && NodeRight(s, dp);
    forall d: nat, l: nat | Counts(s, i, d, l)
      ensures d == dp && l == k
    {
      assert NodeRight(s, d) && HasName(s, d);
    }
    assert Names(s, i) == {(dp, k)};
    assert HasName(s, dp);
    assert Counts(s, dp, i, 1);
    if dp == ROOT {
      assert Counts(s, ROOT, ROOT, 1);
      AtLeastTwo(Names(s, dp), (i, 1), (ROOT, 1));
    } else {
      var m: nat :| m >= 2 && Counts(s, dp, Parent(s, dp), m);
      AtLeastTwo(Names(s, dp), (i, 1), (Parent(s, dp), m));
    }
  }

  /** Directory i, which is empty, loses its name in dp, and no longer counts itself. */
  ghost predicate Removed(s: System, t: System, i: nat, dp: nat, k: nat) {
    && Inv(s) && 0 < i < |s.nodes| == |t.nodes| && t.pending == s.pending && k >= 2
    && Live(s, i) && Counts(s, i, dp, k) && i != dp && Parent(s, i) == dp && i != ROOT
    && (forall d: nat, l: nat :: Counts(s, i, d, l) <==> d == dp && l == k)
    && (forall d: nat :: Live(t, d) <==> Live(s, d) && d != i)
    && (forall d: nat :: Live(t, d) ==> Parent(t, d) == Parent(s, d))
    && (forall d: nat :: d < |t.nodes| && d != i ==> t.nodes[d].nlink == s.nodes[d].nlink - if d == dp then 1 else 0)
    && s.nodes[i].nlink == 1 && t.nodes[i].nlink == 0
    && (forall j: nat, d: nat, l: nat :: j != 0 ==>
          (Counts(t, j, d, l) <==> Counts(s, j, d, l) && !(d == dp && l == k) && !(d == i && l == 1)))
  }

  lemma RemovedNames(s: System, t: System, i: nat, dp: nat, k: nat, j: nat)
    requires Removed(s, t, i, dp, k)
    ensures LinkRight(t, j)
  {
    assert LinkRight(s, j);
    assert NodeRight(s, i);
    if j == i {
      NamesPlus(t, s, i, dp, k);
    } else if j == dp {
      assert Counts(s, dp, i, 1);
      NamesPlus(t, s, dp, i, 1);
    } else if j != 0 {
      assert !Counts(s, j, i, 1);
      NamesEqual(s, t, j);
    }
  }

  lemma RemovedTree(s: System, t: System, i: nat, dp: nat, k: nat)
    requires Removed(s, t, i, dp, k) && forall d: nat :: d < |t.nodes| ==> DirRight(t, d)
    ensures Tree(t)
  {
    forall j: nat
      ensures HasName(t, j)
    {
      assert HasName(s, j);
      if Live(t, j) && j != ROOT {
        var l: nat :| l >= 2 && Counts(s, j, Parent(s, j), l);
        assert Counts(t, j, Parent(t, j), l);
      }
    }
  }

  lemma UnlinkIsRemoved(s: System, dp: nat, name: string)
    requires Inv(s) && IsDir(s, dp) && Unlinks(s, dp, name)
    requires IsDir(s, s.nodes[dp].entries[Lookup(s.nodes[dp].entries, name)].inum)
    ensures var k := Lookup(s.nodes[dp].entries, name);
            Removed(s, DoUnlink(s, dp, name), s.nodes[dp].entries[k].inum, dp, k)
  {
    var k := Lookup(s.nodes[dp].entries, name);
    var i := s.nodes[dp].entries[k].inum;
    UnlinkNeverPanics(s, dp, name);
    assert NodeRight(s, i) && NodeRight(s, dp);
    EmptyHasOneName(s, i, dp, k);
  }

  /** Whatever unlink removes, every node is well formed afterwards. */
  lemma UnlinkNode(s: System, dp: nat, name: string, j: nat)
    requires Inv(s) && IsDir(s, dp) && Unlinks(s, dp, name) && j < |s.nodes|
    ensures |DoUnlink(s, dp, name).nodes| == |s.nodes| && NodeRight(DoUnlink(s, dp, name), j)
  {
    var k := Lookup(s.nodes[dp].entries, name);
    var i := s.nodes[dp].entries[k].inum;
    UnlinkNeverPanics(s, dp, name);
    assert NodeRight(s, i) && NodeRight(s, dp) && NodeRight(s, j);
    if IsDir(s, i) {
      EmptyHasOneName(s, i, dp, k);
    }
  }

  lemma UnlinkFile(s: System, dp: nat, name: string)
    requires Inv(s) && IsDir(s, dp) && Unlinks(s, dp, name)
    requires !IsDir(s, s.nodes[dp].entries[Lookup(s.nodes[dp].entries, name)].inum)
    ensures Inv(DoUnlink(s, dp, name))
  {
    var t := DoUnlink(s, dp, name);
    var k := Lookup(s.nodes[dp].entries, name);
    var i := s.nodes[dp].entries[k].inum;
    UnlinkOneName(s, dp, name);
    forall j: nat
      ensures LinkRight(t, j)
    {
      assert LinkRight(s, j);
      if j != 0 {
        OneNameMoreNames(t, s, i, dp, k, j);
      }
    }
    forall j: nat | j < |t.nodes|
      ensures NodeRight(t, j) && DirRight(t, j)
    {
      UnlinkNode(s, dp, name, j);
    }
    OneNameLessTree(s, t, i, dp, k);
  }

  lemma UnlinkOneName(s: System, dp: nat, name: string)
    requires Inv(s) && IsDir(s, dp) && Unlinks(s, dp, name)
    requires !IsDir(s, s.nodes[dp].entries[Lookup(s.nodes[dp].entries, name)].inum)
    ensures var k := Lookup(s.nodes[dp].entries, name);
            var i, t := s.nodes[dp].entries[k].inum, DoUnlink(s, dp, name);
            && OneNameMore(t, s, i, dp, k) && t.pending == s.pending && t.nodes[0] == s.nodes[0]
            && (forall d: nat :: (Live(t, d) <==> Live(s, d)) && (Live(s, d) ==> Parent(t, d) == Parent(s, d)))
            && (forall j: nat :: j < |s.nodes| ==> t.nodes[j].nlink == s.nodes[j].nlink - if j == i then 1 else 0)
  {
    var k := Lookup(s.nodes[dp].entries, name);
    UnlinkNeverPanics(s, dp, name);
    assert NodeRight(s, s.nodes[dp].entries[k].inum) && NodeRight(s, dp);
  }

  lemma UnlinkDir(s: System, dp: nat, name: string)
    requires Inv(s) && IsDir(s, dp) && Unlinks(s, dp, name)
    requires IsDir(s, s.nodes[dp].entries[Lookup(s.nodes[dp].entries, name)].inum)
    ensures Inv(DoUnlink(s, dp, name))
  {
    var t := DoUnlink(s, dp, name);
    var k := Lookup(s.nodes[dp].entries, name);
    var i := s.nodes[dp].entries[k].inum;
    UnlinkIsRemoved(s, dp, name);
    forall j: nat
      ensures LinkRight(t, j) && (j < |t.nodes| ==> DirRight(t, j))
    {
      RemovedNames(s, t, i, dp, k, j);
      if j < |t.nodes| {
        UnlinkNode(s, dp, name, j);
      }
    }
    forall j: nat | j < |t.nodes|
      ensures NodeRight(t, j)
    {
      UnlinkNode(s, dp, name, j);
    }
    RemovedTree(s, t, i, dp, k);
  }

  // ----- Runs -----------------------------------------------------------------

  /** The step enters a name into a removed directory. */
  predicate IntoRemoved(s: System, a: Action) {
    match a
    case LinkEnd(i, dp, name) => IsDir(s, dp) && !Live(s, dp) && Lookup(s.nodes[dp].entries, name) == |s.nodes[dp].entries|
    case Create(dp, name, kind) => IsDir(s, dp) && !Live(s, dp) && Lookup(s.nodes[dp].entries, name) == |s.nodes[dp].entries|
    case _ => false
  }

  /** link or create finds the name taken. */
  lemma NameTaken(s: System, a: Action)
    requires Inv(s) && Enabled(s, a) && (a.LinkEnd? || a.Create?)
    requires Lookup(s.nodes[a.dp].entries, a.name) < |s.nodes[a.dp].entries|
    ensures Inv(Do(s, a))
  {
    var t, es := Do(s, a), s.nodes[a.dp].entries;
    var i := if a.LinkEnd? then a.i else es[Lookup(es, a.name)].inum;
    if a.LinkEnd? {
      assert t == Do(s, LinkFail(i));
      QuietStep(s, LinkFail(i));
    } else if t != s {
      assert NodeRight(s, i);
      forall j: nat | j < |t.nodes|
        ensures NodeRight(t, j)
      {
        assert NodeRight(s, j);
      }
      SameNamesStep(s, t);
    }
  }

  /** Every step keeps the counts right, unless it enters a name into a directory that
      was removed, and then it never does. */
  lemma StepIff(s: System, a: Action)
    requires Inv(s) && Enabled(s, a)
    ensures Inv(Do(s, a)) <==> !IntoRemoved(s, a)
  {
    match a
    case LinkEnd(i, dp, name) =>
      if Lookup(s.nodes[dp].entries, name) < |s.nodes[dp].entries| {
        NameTaken(s, a);
      } else if Live(s, dp) {
        LinkIntoLive(s, i, dp, name);
      } else {
        LinkIntoRemoved(s, i, dp, name);
      }
    case Create(dp, name, kind) =>
      if Lookup(s.nodes[dp].entries, name) < |s.nodes[dp].entries| {
        NameTaken(s, a);
      } else if Live(s, dp) {
        CreateInLive(s, dp, name, kind);
      } else {
        CreateInRemoved(s, dp, name, kind);
      }
    case Unlink(dp, name) =>
      if Unlinks(s, dp, name) {
        if IsDir(s, s.nodes[dp].entries[Lookup(s.nodes[dp].entries, name)].inum) {
          UnlinkDir(s, dp, name);
        } else {
          UnlinkFile(s, dp, name);
        }
      }
    case _ =>
      QuietStep(s, a);
  }

  /** No call of the run enters a name into a removed directory. */
  ghost predicate Clean(s: System, run: seq<Action>)
    requires Feasible(s, run)
    decreases |run|
  {
    run == [] || (!IntoRemoved(s, run[0]) && Clean(Do(s, run[0]), run[1..]))
  }

  lemma {:induction false} InvRun(s: System, run: seq<Action>)
    requires Inv(s) && Feasible(s, run) && Clean(s, run)
    ensures Inv(Exec(s, run))
    decreases |run|
  {
    if run != [] {
      StepIff(s, run[0]);
      InvRun(Do(s, run[0]), run[1..]);
    }
  }

  /** The image that mkfs makes: a root directory with the given files. */
  ghost predicate Init(s: System, names: seq<string>) {
    && 2 + |names| <= |s.nodes| && s.pending == multiset{}
    && s.nodes[ROOT].kind == Dir && s.nodes[ROOT].nlink == 1 && s.nodes[ROOT].refs == 0
    && (forall i :: 0 <= i < |s.nodes| && i != ROOT ==>
          s.nodes[i] == if 2 <= i < 2 + |names| then Node(File, 1, 0, []) else Freed())
    && var es := s.nodes[ROOT].entries;
       && |es| >= 2 + |names| && es[0] == Entry(ROOT, ".") && es[1] == Entry(ROOT, "..")
       && (forall k :: 2 <= k < 2 + |names| ==>
             es[k] == Entry(k, names[k - 2]) && names[k - 2] != "." && names[k - 2] != "..")
       && (forall k :: 2 + |names| <= k < |es| ==> es[k].inum == 0)
  }

  lemma InvInit(s: System, names: seq<string>)
    requires Init(s, names)
    ensures Inv(s)
  {
    forall i: nat
      ensures LinkRight(s, i)
    {
      if i == ROOT {
        assert Names(s, ROOT) == {(ROOT, 1)};
      } else if 2 <= i < 2 + |names| {
        assert Names(s, i) == {(ROOT, i)};
      } else if i > 0 {
        assert Names(s, i) == {};
      }
    }
  }

  /** The counts are right in every state of the run. */
  ghost predicate AlwaysRight(s: System, run: seq<Action>)
    requires Feasible(s, run)
    decreases |run|
  {
    LinksRight(s) && (run == [] || AlwaysRight(Do(s, run[0]), run[1..]))
  }

  lemma {:induction false} AlwaysRightRun(s: System, run: seq<Action>)
    requires Inv(s) && Feasible(s, run)
    ensures AlwaysRight(s, run) <==> Clean(s, run)
    decreases |run|
  {
    if run != [] {
      StepIff(s, run[0]);
      if IntoRemoved(s, run[0]) {
        WrongAfterwards(s, run[0]);
      } else {
        AlwaysRightRun(Do(s, run[0]), run[1..]);
      }
    }
  }

  lemma WrongAfterwards(s: System, a: Action)
    requires Inv(s) && Enabled(s, a) && IntoRemoved(s, a)
    ensures !LinksRight(Do(s, a))
  {
    if a.LinkEnd? {
      LinkIntoRemoved(s, a.i, a.dp, a.name);
    } else {
      CreateInRemoved(s, a.dp, a.name, a.kind);
    }
  }

  /** In a run from an image of mkfs the counts are right throughout if and only if it
      enters no name into a removed directory. */
  lemma LinksAreCountedIff(s: System, names: seq<string>, run: seq<Action>)
    requires Init(s, names) && Feasible(s, run)
    ensures AlwaysRight(s, run) <==> Clean(s, run)
  {
    InvInit(s, names);
    AlwaysRightRun(s, run);
  }

  /** Then the count of every inode is the number of its names plus the links under way. */
  lemma LinksAreCounted(s: System, names: seq<string>, run: seq<Action>, i: nat)
    requires Init(s, names) && Feasible(s, run) && Clean(s, run)
    ensures var t := Exec(s, run);
            0 < i < |t.nodes| ==> t.nodes[i].nlink == |Names(t, i)| + t.pending[i]
  {
    InvInit(s, names);
    InvRun(s, run);
    assert LinkRight(Exec(s, run), i);
  }

  /** And no inode that a live directory names is ever free: every path that stays in
      live directories leads to an allocated inode. */
  lemma NoNamedInodeIsFree(s: System, names: seq<string>, run: seq<Action>, i: nat)
    requires Init(s, names) && Feasible(s, run) && Clean(s, run) && i != 0 && Named(Exec(s, run), i)
    ensures var t := Exec(s, run); i < |t.nodes| && t.nodes[i].kind != Free
  {
    InvInit(s, names);
    InvRun(s, run);
    var t := Exec(s, run);
    if i != ROOT {
      var d: nat, k: nat :| NamedBy(t, i, d, k);
      NamedIsNotFree(t, i, d, k);
    }
  }

  /** There is room in directory dp for a new directory of that name, and there are two
      free inodes, of which ip is the first. */
  ghost predicate RoomFor(s: System, dp: nat, name: string, ip: nat, next: nat) {
    && Inv(s) && Live(s, dp) && name != "." && name != ".."
    && Lookup(s.nodes[dp].entries, name) == |s.nodes[dp].entries| && !Packed(s.nodes[dp].entries)
    && ip == FreeInode(s.nodes, 1) < next < |s.nodes| && s.nodes[next].kind == Free
  }

  /** A process makes a directory, goes there, removes it and creates a file in it:
      afterwards the file counts a link that no live directory holds.  The calls are
      mkdir, which drops the reference that create took, chdir, unlink and open.  Any
      state with right counts leads to a wrong one in this way. */
  lemma CountsGoWrong(s: System, dp: nat, name: string, x: string, ip: nat, next: nat)
    requires RoomFor(s, dp, name, ip, next) && x != "." && x != ".."
    ensures var run := [Create(dp, name, Dir), Drop(ip), Hold(ip), Unlink(dp, name), Create(ip, x, File)];
            Feasible(s, run) && !LinksRight(Exec(s, run))
  {
    var t := MakeDirectory(s, dp, name, ip, next);
    Revisit(t, dp, name, ip, next);
    RemoveAndCreate(t, dp, name, x, ip, next);
    StepThen(Do(t, Drop(ip)), Hold(ip), [Unlink(dp, name), Create(ip, x, File)]);
    StepThen(t, Drop(ip), [Hold(ip)] + [Unlink(dp, name), Create(ip, x, File)]);
    var rest := [Drop(ip)] + ([Hold(ip)] + [Unlink(dp, name), Create(ip, x, File)]);
    StepThen(s, Create(dp, name, Dir), rest);
    assert [Create(dp, name, Dir)] + rest ==
           [Create(dp, name, Dir), Drop(ip), Hold(ip), Unlink(dp, name), Create(ip, x, File)];
  }

  /** So does every image of mkfs with two inodes and an entry of the root to spare. */
  lemma CountsGoWrongOnImage(s: System, names: seq<string>, name: string)
    requires Init(s, names) && |names| + 4 <= |s.nodes| && 2 + |names| < MAXENTRIES
    requires name != "." && name != ".." && name !in names
    ensures var ip := 2 + |names|;
            var run := [Create(ROOT, name, Dir), Drop(ip), Hold(ip), Unlink(ROOT, name), Create(ip, "x", File)];
            Feasible(s, run) && !LinksRight(Exec(s, run))
  {
    InvInit(s, names);
    var ip := 2 + |names|;
    assert s.nodes[ip].kind == Free && FreeInode(s.nodes, 1) == ip;
    var es := s.nodes[ROOT].entries;
    assert forall k :: 0 <= k < |es| ==> !Matches(es[k], name);
    assert !Packed(es) by {
      if |es| >= MAXENTRIES {
        assert es[ip].inum == 0;
      }
    }
    CountsGoWrong(s, ROOT, name, "x", ip, ip + 1);
  }

  lemma StepThen(s: System, a: Action, run: seq<Action>)
    requires Enabled(s, a) && Feasible(Do(s, a), run)
    ensures Feasible(s, [a] + run) && Exec(s, [a] + run) == Exec(Do(s, a), run)
  {
    assert ([a] + run)[1..] == run;
  }

  /** A new directory ip, empty and in use, which directory dp names. */
  ghost predicate NewDirectory(t: System, dp: nat, name: string, ip: nat, next: nat) {
    && Inv(t) && Live(t, dp) && dp != ip && name != "." && name != ".."
    && ip < |t.nodes| && t.nodes[ip] == Node(Dir, 1, 1, [Entry(ip, "."), Entry(dp, "..")])
    && 0 < next < |t.nodes| && next != dp && next != ip && t.nodes[next].kind == Free
    && var k := Lookup(t.nodes[dp].entries, name); k < |t.nodes[dp].entries| && t.nodes[dp].entries[k] == Entry(ip, name)
  }

  lemma MakeDirectory(s: System, dp: nat, name: string, ip: nat, next: nat) returns (t: System)
    requires RoomFor(s, dp, name, ip, next)
    ensures Enabled(s, Create(dp, name, Dir)) && t == Do(s, Create(dp, name, Dir)) && NewDirectory(t, dp, name, ip, next)
  {
    t := Do(s, Create(dp, name, Dir));
    StepIff(s, Create(dp, name, Dir));
    var es, k := s.nodes[dp].entries, Unused(s.nodes[dp].entries);
    var fs := Entered(es, Entry(ip, name));
    assert t.nodes[dp].entries == fs && fs[k] == Entry(ip, name);
    assert forall j :: 0 <= j < |fs| && j != k ==> fs[j] == es[j] && !Matches(es[j], name);
    assert Lookup(fs, name) == k;
  }

  /** Dropping the only reference to a directory that has a name does not free it. */
  lemma Revisit(t: System, dp: nat, name: string, ip: nat, next: nat)
    requires NewDirectory(t, dp, name, ip, next)
    ensures Enabled(t, Drop(ip)) && Enabled(Do(t, Drop(ip)), Hold(ip)) && Do(Do(t, Drop(ip)), Hold(ip)) == t
  {
    assert NodeRight(t, ip);
    var u := Do(t, Drop(ip));
    assert NamedBy(u, ip, dp, Lookup(t.nodes[dp].entries, name));
    assert Do(u, Hold(ip)).nodes == t.nodes;
  }

  lemma RemoveAndCreate(t: System, dp: nat, name: string, x: string, ip: nat, next: nat)
    requires NewDirectory(t, dp, name, ip, next) && x != "." && x != ".."
    ensures var run := [Unlink(dp, name), Create(ip, x, File)]; Feasible(t, run) && !LinksRight(Exec(t, run))
  {
    var b, c := Unlink(dp, name), Create(ip, x, File);
    var u := Do(t, b);
    StepIff(t, b);
    assert u.nodes[ip] == Node(Dir, 0, 1, [Entry(ip, "."), Entry(dp, "..")]) && u.nodes[next] == t.nodes[next];
    var es := u.nodes[ip].entries;
    assert es[0].name == "." && es[1].name == ".." && |es| == 2;
    assert Lookup(es, x) == 2;
    assert FreeInode(u.nodes, 1) <= next;
    CreateInRemoved(u, ip, x, File);
    StepThen(u, c, []);
    StepThen(t, b, [c] + []);
    assert [b] + ([c] + []) == [b, c];
  }

  // ----- What the calls do to names and references ----------------------------

  /** The inode that entries es give for a name, 0 for none. */
  function InumOf(es: seq<Entry>, name: string): nat {
    var k := Lookup(es, name);
    if k < |es| then es[k].inum else 0
  }

  /** What directory d calls `name`. */
  function Resolve(s: System, d: nat, name: string): nat {
    if IsDir(s, d) then InumOf(s.nodes[d].entries, name) else 0
  }

  ghost predicate Unique(es: seq<Entry>) {
    forall j, k :: 0 <= j < k < |es| && es[j].inum != 0 && es[k].inum != 0 ==> es[j].name != es[k].name
  }

  ghost predicate UniqueNames(s: System) {
    forall d: nat :: d < |s.nodes| ==> Unique(s.nodes[d].entries)
  }

  /** dirlink gives the new name its inode, and every other name the one it had. */
  lemma EnteredResolves(es: seq<Entry>, e: Entry, x: string)
    requires e.inum != 0 && Lookup(es, e.name) == |es|
    ensures InumOf(Entered(es, e), x) == if x == e.name then e.inum else InumOf(es, x)
    ensures Unique(es) ==> Unique(Entered(es, e))
  {
    EnteredAt(es, e);
    var r, k, l := Entered(es, e), Unused(es), Lookup(Entered(es, e), x);
    if x != e.name {
      assert l < |r| ==> l != k;
      assert Lookup(es, x) < |es| ==> Matches(r[Lookup(es, x)], x);
    } else {
      assert Matches(r[k], x);
    }
  }

  /** Clearing an entry takes its name away, and no other. */
  lemma ClearedResolves(es: seq<Entry>, k: nat, x: string)
    requires Unique(es) && k < |es| && es[k].inum != 0
    ensures InumOf(es[k := Entry(0, "")], x) == if x == es[k].name then 0 else InumOf(es, x)
    ensures Unique(es[k := Entry(0, "")])
  {
    var r := es[k := Entry(0, "")];
    var l, m := Lookup(es, x), Lookup(r, x);
    if x != es[k].name {
      assert l < |es| ==> Matches(r[l], x);
      assert m < |r| ==> Matches(es[m], x);
    } else {
      assert m < |r| ==> Matches(es[m], x) && m != k;
    }
  }

  /** t differs from s in what directory dp calls `name`, which is now i; of the new
      directories and the directories gone by, `other` is the only one. */
  ghost predicate Renamed(s: System, t: System, dp: nat, name: string, i: nat, other: nat) {
    forall d: nat, x: string :: d != other ==>
      Resolve(t, d, x) == if d == dp && x == name then i else Resolve(s, d, x)
  }

  /** create makes an inode that the directory then knows by the name; a new directory
      knows itself and its parent. */
  lemma CreateEnters(s: System, dp: nat, name: string, kind: Kind)
    requires Inv(s) && Enabled(s, Create(dp, name, kind)) && Lookup(s.nodes[dp].entries, name) == |s.nodes[dp].entries|
    ensures var t, ip := Do(s, Create(dp, name, kind)), FreeInode(s.nodes, 1);
            && 0 < ip < |s.nodes| == |t.nodes| && s.nodes[ip].kind == Free && ip != dp
            && t.nodes[ip] == Node(kind, 1, 1, t.nodes[ip].entries)
            && Renamed(s, t, dp, name, ip, ip) && Resolve(t, dp, name) == ip
            && (forall x: string :: Resolve(t, ip, x) == if kind == Dir && x == "." then ip else if kind == Dir && x == ".." then dp else 0)
            && (UniqueNames(s) ==> UniqueNames(t))
  {
    var t, ip := Do(s, Create(dp, name, kind)), FreeInode(s.nodes, 1);
    assert NodeRight(s, dp);
    forall d: nat, x: string | d != ip
      ensures Resolve(t, d, x) == if d == dp && x == name then ip else Resolve(s, d, x)
    {
      EnteredResolves(s.nodes[dp].entries, Entry(ip, name), x);
    }
    EnteredResolves(s.nodes[dp].entries, Entry(ip, name), name);
    forall x: string
      ensures Resolve(t, ip, x) == if kind == Dir && x == "." then ip else if kind == Dir && x == ".." then dp else 0
    {
      DotsResolve(ip, dp, x);
    }
  }

  lemma DotsResolve(ip: nat, dp: nat, x: string)
    requires ip != 0 && dp != 0
    ensures InumOf([Entry(ip, "."), Entry(dp, "..")], x) == if x == "." then ip else if x == ".." then dp else 0
    ensures Unique([Entry(ip, "."), Entry(dp, "..")])
  {
    var es := [Entry(ip, "."), Entry(dp, "..")];
    assert Matches(es[0], ".") && Matches(es[1], "..");
  }

  /** link gives the inode the new name. */
  lemma LinkEnters(s: System, i: nat, dp: nat, name: string)
    requires Inv(s) && Enabled(s, LinkEnd(i, dp, name)) && Lookup(s.nodes[dp].entries, name) == |s.nodes[dp].entries|
    ensures var t := Do(s, LinkEnd(i, dp, name));
            && |t.nodes| == |s.nodes| && t.nodes[i].nlink == s.nodes[i].nlink && t.pending == s.pending - multiset{i}
            && Renamed(s, t, dp, name, i, 0) && Resolve(t, dp, name) == i
            && (UniqueNames(s) ==> UniqueNames(t))
  {
    var t := Do(s, LinkEnd(i, dp, name));
    assert NodeRight(s, dp) && NodeRight(s, i);
    forall d: nat, x: string | d != 0
      ensures Resolve(t, d, x) == if d == dp && x == name then i else Resolve(s, d, x)
    {
      EnteredResolves(s.nodes[dp].entries, Entry(i, name), x);
    }
    EnteredResolves(s.nodes[dp].entries, Entry(i, name), name);
  }

  /** unlink takes the name away, and with the last link and reference the inode. */
  ghost predicate UnlinkedAs(s: System, t: System, dp: nat, name: string) {
    var ip := Resolve(s, dp, name);
    && 0 < ip < |s.nodes| == |t.nodes| && ip != dp
    && Renamed(s, t, dp, name, 0, ip) && Resolve(t, dp, name) == 0
    && (if s.nodes[ip].nlink == 1 && s.nodes[ip].refs == 0 then t.nodes[ip] == Freed()
        else t.nodes[ip].nlink == s.nodes[ip].nlink - 1 && t.nodes[ip] == s.nodes[ip].(nlink := t.nodes[ip].nlink))
  }

  lemma UnlinkForgets(s: System, dp: nat, name: string)
    requires Inv(s) && UniqueNames(s) && IsDir(s, dp) && Unlinks(s, dp, name)
    ensures UnlinkedAs(s, DoUnlink(s, dp, name), dp, name)
  {
    var t := DoUnlink(s, dp, name);
    var es := s.nodes[dp].entries;
    var k := Lookup(es, name);
    var ip := es[k].inum;
    UnlinkNeverPanics(s, dp, name);
    assert NodeRight(s, dp) && NodeRight(s, ip);
    if IsDir(s, ip) {
      EmptyHasOneName(s, ip, dp, k);
    }
    forall d: nat, x: string | d != ip
      ensures Resolve(t, d, x) == if d == dp && x == name then 0 else Resolve(s, d, x)
    {
      ClearedResolves(es, k, x);
    }
    ClearedResolves(es, k, name);
  }

  lemma EnteredUnique(es: seq<Entry>, e: Entry)
    requires Unique(es) && Lookup(es, e.name) == |es|
    ensures Unique(Entered(es, e))
  {
    EnteredAt(es, e);
  }

  /** Only the entries of dp change, and those of inode i that come and go as a whole. */
  lemma UniqueElsewhere(s: System, t: System, dp: nat, i: nat)
    requires UniqueNames(s) && |t.nodes| == |s.nodes| && (dp < |t.nodes| ==> Unique(t.nodes[dp].entries))
    requires i < |t.nodes| ==> Unique(t.nodes[i].entries)
    requires forall d: nat :: d < |t.nodes| && d != dp && d != i ==> t.nodes[d].entries == s.nodes[d].entries
    ensures UniqueNames(t)
  {
  }

  lemma UniqueLink(s: System, i: nat, dp: nat, name: string)
    requires UniqueNames(s) && IsDir(s, dp) && i < |s.nodes|
    ensures UniqueNames(DoLinkEnd(s, i, dp, name))
  {
    if Lookup(s.nodes[dp].entries, name) == |s.nodes[dp].entries| {
      EnteredUnique(s.nodes[dp].entries, Entry(i, name));
    }
    UniqueElsewhere(s, DoLinkEnd(s, i, dp, name), dp, dp);
  }

  lemma UniqueCreate(s: System, dp: nat, name: string, kind: Kind)
    requires UniqueNames(s) && IsDir(s, dp) && |s.nodes| > 1
    ensures UniqueNames(DoCreate(s, dp, name, kind))
  {
    var ip := FreeInode(s.nodes, 1);
    if Lookup(s.nodes[dp].entries, name) == |s.nodes[dp].entries| {
      EnteredUnique(s.nodes[dp].entries, Entry(ip, name));
    }
    UniqueElsewhere(s, DoCreate(s, dp, name, kind), dp, ip);
  }

  lemma UniqueUnlink(s: System, dp: nat, name: string)
    requires UniqueNames(s) && IsDir(s, dp)
    ensures UniqueNames(DoUnlink(s, dp, name))
  {
    if Unlinks(s, dp, name) {
      UniqueElsewhere(s, DoUnlink(s, dp, name), dp, Resolve(s, dp, name));
    }
  }

  lemma UniqueStep(s: System, a: Action)
    requires UniqueNames(s) && Enabled(s, a)
    ensures UniqueNames(Do(s, a))
  {
    match a
    case LinkEnd(i, dp, name) =>
      if i < |s.nodes| {
        UniqueLink(s, i, dp, name);
      }
    case Create(dp, name, kind) =>
      UniqueCreate(s, dp, name, kind);
    case Unlink(dp, name) =>
      UniqueUnlink(s, dp, name);
    case _ =>
      UniqueElsewhere(s, Do(s, a), 0, a.i);
  }

  lemma {:induction false} UniqueRun(s: System, run: seq<Action>)
    requires UniqueNames(s) && Feasible(s, run)
    ensures UniqueNames(Exec(s, run))
    decreases |run|
  {
    if run != [] {
      UniqueStep(s, run[0]);
      UniqueRun(Do(s, run[0]), run[1..]);
    }
  }

  /** In every run, those with names in removed directories included, no directory has two
      entries of the same name. */
  lemma NamesStayUnique(s: System, names: seq<string>, run: seq<Action>, d: nat)
    requires Init(s, names) && (forall i, j :: 0 <= i < j < |names| ==> names[i] != names[j]) && Feasible(s, run)
    ensures d < |Exec(s, run).nodes| ==> Unique(Exec(s, run).nodes[d].entries)
  {
    var es := s.nodes[ROOT].entries;
    forall j, k | 0 <= j < k < |es| && es[j].inum != 0 && es[k].inum != 0
      ensures es[j].name != es[k].name
    {
      assert k < 2 + |names|;
    }
    UniqueRun(s, run);
  }

  /** The inode that create returns, 0 for none. */
  function Returned(s: System, a: Action): nat {
    if !a.Create? || !IsDir(s, a.dp) || |s.nodes| < 1 then 0
    else
      var i := InumOf(s.nodes[a.dp].entries, a.name);
      if i == 0 then FreeInode(s.nodes, 1)
      else if i < |s.nodes| && a.kind == File && s.nodes[i].kind == File then i else 0
  }

  /** The references to an inode are those taken and not yet given back, and while there
      are any its kind stays the same. */
  lemma RefsStep(s: System, a: Action, i: nat)
    requires Inv(s) && Enabled(s, a) && 0 < i < |s.nodes|
    ensures RefsChange(s, Do(s, a), i, a == Hold(i) || Returned(s, a) == i, a == Drop(i))
  {
    assert NodeRight(s, i);
    match a
    case Unlink(dp, name) =>
      RefsUnlink(s, dp, name, i);
    case Create(dp, name, kind) =>
      RefsCreate(s, dp, name, kind, i);
    case LinkEnd(j, dp, name) =>
      assert NodeRight(s, dp);
    case _ =>
  }

  ghost predicate RefsChange(s: System, t: System, i: nat, taken: bool, dropped: bool) {
    && i < |s.nodes| == |t.nodes|
    && t.nodes[i].refs == s.nodes[i].refs + (if taken then 1 else 0) - (if dropped then 1 else 0)
    && (s.nodes[i].refs > 0 && t.nodes[i].refs > 0 ==> t.nodes[i].kind == s.nodes[i].kind)
  }

  lemma RefsUnlink(s: System, dp: nat, name: string, i: nat)
    requires Inv(s) && IsDir(s, dp) && 0 < i < |s.nodes|
    ensures RefsChange(s, DoUnlink(s, dp, name), i, false, false)
  {
    if Unlinks(s, dp, name) {
      UnlinkNeverPanics(s, dp, name);
    }
  }

  lemma RefsCreate(s: System, dp: nat, name: string, kind: Kind, i: nat)
    requires Inv(s) && Enabled(s, Create(dp, name, kind)) && 0 < i < |s.nodes|
    ensures RefsChange(s, Do(s, Create(dp, name, kind)), i, Returned(s, Create(dp, name, kind)) == i, false)
  {
    assert NodeRight(s, dp) && NodeRight(s, i);
  }

  /** References taken in a run, less those given back. */
  ghost function RefsTaken(s: System, run: seq<Action>, i: nat): int
    requires Feasible(s, run)
    decreases |run|
  {
    if run == [] then 0
    else
      (if run[0] == Hold(i) || Returned(s, run[0]) == i then 1 else 0) - (if run[0] == Drop(i) then 1 else 0)
      + RefsTaken(Do(s, run[0]), run[1..], i)
  }

  /** Over every run that enters no name into a removed directory the references add up, and
      an inode is free exactly when it has neither references nor links. */
  lemma {:induction false} RefsRun(s: System, run: seq<Action>, i: nat)
    requires Inv(s) && Feasible(s, run) && Clean(s, run) && 0 < i < |s.nodes|
    ensures var t := Exec(s, run);
            && |t.nodes| == |s.nodes| && t.nodes[i].refs == s.nodes[i].refs + RefsTaken(s, run, i)
            && (t.nodes[i].kind == Free <==> t.nodes[i].nlink == 0 && t.nodes[i].refs == 0)
    decreases |run|
  {
    if run == [] {
      assert NodeRight(s, i);
    } else {
      RefsStep(s, run[0], i);
      StepIff(s, run[0]);
      RefsRun(Do(s, run[0]), run[1..], i);
    }
  }

  /** sys_link as its three steps: the inode has the new name and one link more, and the
      reference to it is given back. */
  lemma LinkEffect(s: System, t: System, u: System, i: nat, dp: nat, name: string)
    requires Inv(s) && IsDir(s, dp) && Lookup(s.nodes[dp].entries, name) == |s.nodes[dp].entries|
    requires Enabled(s, LinkBegin(i)) && t == Do(s, LinkBegin(i))
    requires Enabled(t, LinkEnd(i, dp, name)) && u == Do(t, LinkEnd(i, dp, name)) && Enabled(u, Drop(i))
    ensures LinkedAs(s, Do(u, Drop(i)), i, dp, name)
  {
    QuietStep(s, LinkBegin(i));
    LinkEnters(t, i, dp, name);
    assert NodeRight(s, i) && NodeRight(s, dp) && dp != i;
    var v := Do(u, Drop(i));
    forall d: nat, x: string | d != 0
      ensures Resolve(v, d, x) == if d == dp && x == name then i else Resolve(s, d, x)
    {
      assert Resolve(t, d, x) == Resolve(s, d, x);
      assert Resolve(v, d, x) == Resolve(u, d, x);
    }
  }

  ghost predicate LinkedAs(s: System, t: System, i: nat, dp: nat, name: string) {
    && 0 < i < |s.nodes| == |t.nodes| && Renamed(s, t, dp, name, i, 0) && Resolve(t, dp, name) == i
    && t.nodes[i].nlink == s.nodes[i].nlink + 1 && t.nodes[i].refs == s.nodes[i].refs - 1
  }

  // ----- The calls as the source makes them -----------------------------------

  class Inodes {
    var nodes: seq<Node>
    ghost var pending: multiset<nat>

    ghost function S(): System
      reads this
    {
      System(nodes, pending)
    }

    method Dirlookup(dp: nat, name: string) returns (k: nat)
      requires IsDir(S(), dp)
      ensures k == Lookup(nodes[dp].entries, name)
    {
      k := 0;
      while k < |nodes[dp].entries|
        invariant k <= |nodes[dp].entries| && Lookup(nodes[dp].entries, name) == LookupFrom(nodes[dp].entries, name, k)
      {
        var de := nodes[dp].entries[k];
        if de.inum != 0 && de.name == name {
          return;
        }
        k := k + 1;
      }
    }

    /** dirlink; it fails when the name is taken, and panics when there is no room. */
    method Dirlink(dp: nat, name: string, inum: nat) returns (r: int, ok: bool)
      requires IsDir(S(), dp)
      modifies `nodes
      ensures old(Lookup(nodes[dp].entries, name)) < |old(nodes)[dp].entries| ==> ok && r == -1 && nodes == old(nodes)
      ensures old(Lookup(nodes[dp].entries, name)) == |old(nodes)[dp].entries| ==> (ok <==> !Packed(old(nodes)[dp].entries))
      ensures old(Lookup(nodes[dp].entries, name)) == |old(nodes)[dp].entries| && ok ==>
                && r == 0
                && nodes == old(nodes)[dp := old(nodes)[dp].(entries := Entered(old(nodes)[dp].entries, Entry(inum, name)))]
    {
      r, ok := -1, true;
      var es := nodes[dp].entries;
      var found := Dirlookup(dp, name);
      if found < |es| {
        return;
      }
      var off := 0;
      while off < |es|
        invariant off <= |es| && Unused(es) == Unused(es, off)
      {
        if es[off].inum == 0 {
          break;
        }
        off := off + 1;
      }
      if off < |es| {
        es := es[off := Entry(inum, name)];
      } else if off < MAXENTRIES {
        es := es + [Entry(inum, name)];
      } else {
        return -1, false;
      }
      nodes := nodes[dp := nodes[dp].(entries := es)];
      r := 0;
    }

    method Isdirempty(dp: nat) returns (b: bool)
      requires dp < |nodes|
      ensures b <==> Empty(nodes[dp].entries)
    {
      var off := 2;
      while off < |nodes[dp].entries|
        invariant 2 <= off && forall k :: 2 <= k < off && k < |nodes[dp].entries| ==> nodes[dp].entries[k].inum == 0
      {
        if nodes[dp].entries[off].inum != 0 {
          return false;
        }
        off := off + 1;
      }
      return true;
    }

    method Ialloc() returns (inum: nat)
      requires |nodes| > 0
      ensures inum == FreeInode(nodes, 1)
    {
      inum := 1;
      while inum < |nodes|
        invariant 1 <= inum <= |nodes| && FreeInode(nodes, 1) == FreeInode(nodes, inum)
      {
        if nodes[inum].kind == Free {
          return;
        }
        inum := inum + 1;
      }
    }

    /** sys_link from the point where the old name has been resolved to i; found says
        whether there is a directory dp for the new one.  It is the three steps of the
        state machine in a row. */
    method SysLink(i: nat, found: bool, dp: nat, name: string) returns (r: int, ok: bool)
      requires i < |nodes| && 0 < nodes[i].refs && pending[i] < nodes[i].refs && (found ==> IsDir(S(), dp))
      modifies this
      ensures ok ==> pending == old(pending)
      ensures ok && old(nodes)[i].kind == Dir ==> r == -1 && S() == Do(old(S()), Drop(i))
      ensures ok && old(nodes)[i].kind != Dir ==>
                && r == (if found && Lookup(old(nodes)[dp].entries, name) == |old(nodes)[dp].entries| then 0 else -1)
                && var run := [LinkBegin(i), if found then LinkEnd(i, dp, name) else LinkFail(i), Drop(i)];
                   Feasible(old(S()), run) && S() == Exec(old(S()), run)
      ensures ok && r == 0 && Inv(old(S())) ==> LinkedAs(old(S()), S(), i, dp, name)
      ensures !ok ==> found && Packed(old(nodes)[dp].entries)
    {
      r, ok := -1, true;
      ghost var s := S();
      if nodes[i].kind == Dir {
        nodes := nodes[i := Put(nodes[i])];
        return;
      }
      nodes := nodes[i := AddLinks(nodes[i], 1)];
      pending := pending + multiset{i};
      assert S() == Do(s, LinkBegin(i));
      ghost var b := if found then LinkEnd(i, dp, name) else LinkFail(i);
      if found {
        r, ok := Dirlink(dp, name, i);
        if !ok {
          return;
        }
      }
      if r < 0 {
        nodes := nodes[i := AddLinks(nodes[i], -1)];
      }
      pending := pending - multiset{i};
      assert S() == Do(Do(s, LinkBegin(i)), b);
      nodes := nodes[i := Put(nodes[i])];
      ThreeSteps(s, LinkBegin(i), b, Drop(i));
      if r == 0 && Inv(s) {
        LinkEffect(s, Do(s, LinkBegin(i)), Do(Do(s, LinkBegin(i)), b), i, dp, name);
      }
    }

    method SysUnlink(dp: nat, name: string) returns (r: int)
      requires Inv(S()) && IsDir(S(), dp)
      modifies `nodes
      ensures S() == DoUnlink(old(S()), dp, name)
      ensures r == if Unlinks(old(S()), dp, name) then 0 else -1
      ensures r == -1 ==> nodes == old(nodes)
      ensures r == 0 && UniqueNames(old(S())) ==> UnlinkedAs(old(S()), S(), dp, name)
    {
      r := -1;
      ghost var s := S();
      if name == "." || name == ".." {
        return;
      }
      var k := Dirlookup(dp, name);
      if k == |nodes[dp].entries| {
        return;
      }
      UnlinkNeverPanics(S(), dp, name);
      var ip := nodes[dp].entries[k].inum;
      nodes := nodes[ip := nodes[ip].(refs := nodes[ip].refs + 1)];
      assert nodes[ip].nlink >= 1;
      var isdir := nodes[ip].kind == Dir;
      if isdir {
        var empty := Isdirempty(ip);
        if !empty {
          nodes := nodes[ip := Put(nodes[ip])];
          assert nodes == old(nodes);
          return;
        }
      }
      nodes := nodes[dp := nodes[dp].(entries := nodes[dp].entries[k := Entry(0, "")])];
      if isdir {
        nodes := nodes[dp := AddLinks(nodes[dp], -1)];
      }
      nodes := nodes[ip := AddLinks(nodes[ip], -1)];
      nodes := nodes[ip := Put(nodes[ip])];
      r := 0;
      if UniqueNames(s) {
        UnlinkForgets(s, dp, name);
      }
    }

    /** create; 0 is a failure.  It panics when there is no inode or no room in the
        directory left, and on an entry of a removed directory whose inode is free. */
    method Create(dp: nat, name: string, kind: Kind) returns (ip: nat, ok: bool)
      requires Inv(S()) && IsDir(S(), dp) && kind != Free
      modifies `nodes
      ensures ok ==> Enabled(old(S()), Action.Create(dp, name, kind)) && S() == Do(old(S()), Action.Create(dp, name, kind))
      ensures var es := old(nodes)[dp].entries;
              var k := Lookup(es, name);
              if k < |es| then ok <==> es[k].inum < |old(nodes)| && old(nodes)[es[k].inum].kind != Free
              else ok <==> FreeInode(old(nodes), 1) < |old(nodes)| && !Packed(es)
      ensures var i := Resolve(old(S()), dp, name);
              ok ==> (ip == 0 <==> 0 < i < |old(nodes)| && !(kind == File && old(nodes)[i].kind == File))
      ensures ok && ip == 0 ==> nodes == old(nodes)
      ensures ok && ip != 0 ==>
                && ip < |nodes| == |old(nodes)| && Resolve(S(), dp, name) == ip && nodes[ip].kind == kind
                && nodes[ip].refs == old(nodes)[ip].refs + 1
                && (Resolve(old(S()), dp, name) in {0, ip}) && Renamed(old(S()), S(), dp, name, ip, ip)
    {
      ghost var s := S();
      assert NodeRight(S(), dp);
      var k := Dirlookup(dp, name);
      if k < |nodes[dp].entries| {
        ip, ok := CreateTaken(nodes[dp].entries[k].inum, kind);
      } else {
        ip, ok := CreateNew(dp, name, kind);
        if ok {
          CreateEnters(s, dp, name, kind);
          FreeHasNone(s, ip);
        }
      }
    }

    method CreateTaken(i: nat, kind: Kind) returns (ip: nat, ok: bool)
      requires Inv(S()) && 0 < i < |nodes|
      modifies `nodes
      ensures ok <==> old(nodes)[i].kind != Free
      ensures if ok && kind == File && old(nodes)[i].kind == File
              then ip == i && nodes == old(nodes)[i := old(nodes)[i].(refs := old(nodes)[i].refs + 1)]
              else nodes == old(nodes) && (ok ==> ip == 0)
    {
      ip, ok := i, nodes[i].kind != Free;
      if ok {
        assert NodeRight(S(), i);
        nodes := nodes[i := nodes[i].(refs := nodes[i].refs + 1)];
        if kind != File || nodes[i].kind != File {
          nodes := nodes[i := Put(nodes[i])];
          assert nodes == old(nodes);
          ip := 0;
        }
      }
    }

    method CreateNew(dp: nat, name: string, kind: Kind) returns (ip: nat, ok: bool)
      requires Inv(S()) && IsDir(S(), dp) && kind != Free && Lookup(nodes[dp].entries, name) == |nodes[dp].entries|
      modifies `nodes
      ensures ok ==> S() == DoCreate(old(S()), dp, name, kind) && ip == FreeInode(old(nodes), 1)
      ensures ok <==> FreeInode(old(nodes), 1) < |old(nodes)| && !Packed(old(nodes)[dp].entries)
    {
      ip := Ialloc();
      ok := ip < |nodes|;
      if !ok {
        return;
      }
      FreeHasNone(S(), ip);
      nodes := nodes[ip := Node(kind, 1, 1, [])];
      if kind == Dir {
        nodes := nodes[dp := AddLinks(nodes[dp], 1)];
        MakeDots(ip, dp);
      }
      var r;
      r, ok := Dirlink(dp, name, ip);
    }

    /** The first two entries of a new directory. */
    method MakeDots(ip: nat, dp: nat)
      requires ip != 0 && IsDir(S(), ip) && nodes[ip].entries == []
      modifies `nodes
      ensures nodes == old(nodes)[ip := old(nodes)[ip].(entries := [Entry(ip, "."), Entry(dp, "..")])]
    {
      DotEntries(ip, dp);
      var r, ok := Dirlink(ip, ".", ip);
      assert nodes[ip].entries == [Entry(ip, ".")];
      r, ok := Dirlink(ip, "..", dp);
    }
  }

  /** Dirlink on a directory without entries and then with one. */
  lemma DotEntries(ip: nat, dp: nat)
    requires ip != 0
    ensures Lookup([], ".") == 0 && Entered([], Entry(ip, ".")) == [Entry(ip, ".")]
    ensures Lookup([Entry(ip, ".")], "..") == 1
    ensures Entered([Entry(ip, ".")], Entry(dp, "..")) == [Entry(ip, "."), Entry(dp, "..")]
  {
  }

  lemma ThreeSteps(s: System, a: Action, b: Action, c: Action)
    requires Enabled(s, a) && Enabled(Do(s, a), b) && Enabled(Do(Do(s, a), b), c)
    ensures Feasible(s, [a, b, c]) && Exec(s, [a, b, c]) == Do(Do(Do(s, a), b), c)
  {
    var t := Do(s, a);
    var u := Do(t, b);
    assert [a, b, c][1..] == [b, c] && [b, c][1..] == [c] && [c][1..] == [];
    assert Feasible(Do(u, c), []) && Feasible(u, [c]) && Feasible(t, [b, c]);
    assert Exec(u, [c]) == Do(u, c) && Exec(t, [b, c]) == Exec(u, [c]);
  }
}
