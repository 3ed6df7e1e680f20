/**
 The release archive: built by `deterministic_archive` (beam/scripts/build_linux_release.py) and
 unpacked by `extract_release` (infrastructure/deployment/stage_mix_release.py).  A tar file is the
 sequence of its members.
 */
module ReleaseArchive {
  import opened Basics
  import opened TextOrder

  const MAX_EXPANDED_BYTES: nat := 2 * 1024 * 1024 * 1024
  const MAX_SCANNED_BYTES: nat := 8 * 1024 * 1024

  // ----- paths -----

  type Path = seq<string>

  /** A name that a directory entry can have. */
  predicate IsName(s: string) {
    s != "" && '/' !in s && s != "." && s != ".."
  }

  predicate IsPath(p: Path) {
    p != [] && forall i | 0 <= i < |p| :: IsName(p[i])
  }

  /** The posix spelling of a path. */
  function Join(p: Path): string
    requires p != []
  {
    if |p| == 1 then p[0] else p[0] + "/" + Join(p[1..])
  }

  /** What stands between the slashes. */
  function Split(s: string): (r: seq<string>)
    ensures r != []
  {
    if s == "" then [""]
    else
      var rest := Split(s[1..]);
      if s[0] == '/' then [""] + rest else [[s[0]] + rest[0]] + rest[1..]
  }

  /** The parts of a relative posix path: empty and "." components do not count. */
  function Significant(components: seq<string>): seq<string> {
    if components == [] then []
    else (if components[0] == "" || components[0] == "." then [] else [components[0]]) + Significant(components[1..])
  }

  /** `safe_relative`: refuse absolute paths, parent references and the empty path. */
  function SafeRelative(s: string): (r: Option<Path>)
    ensures r.Some? ==> r.value != []
  {
    var parts := Significant(Split(s));
    if (s != "" && s[0] == '/') || ".." in parts || parts == [] then None else Some(parts)
  }

  lemma {:induction false} SplitAtSlash(name: string, s: string)
    requires '/' !in name
    ensures Split(name) == [name]
    ensures Split(name + "/" + s) == [name] + Split(s)
  {
    if name == "" {
      assert name + "/" + s == ['/'] + s;
      assert (['/'] + s)[1..] == s;
    } else {
      SplitAtSlash(name[1..], s);
      assert (name + "/" + s)[1..] == name[1..] + "/" + s;
      assert [name[0]] + name[1..] == name;
    }
  }

  lemma {:induction false} SplitJoin(p: Path)
    requires IsPath(p)
    ensures Split(Join(p)) == p
  {
    if |p| == 1 {
      SplitAtSlash(p[0], "");
      assert p == [p[0]];
    } else {
      SplitAtSlash(p[0], Join(p[1..]));
      SplitJoin(p[1..]);
      assert p == [p[0]] + p[1..];
    }
  }

  lemma {:induction false} SignificantOfPath(p: Path)
    requires forall i | 0 <= i < |p| :: IsName(p[i])
    ensures Significant(p) == p
  {
    if p != [] {
      SignificantOfPath(p[1..]);
      assert p == [p[0]] + p[1..];
    }
  }

  /** The name written for a path is safe and leads back to the path. */
  lemma SafeRelativeOfJoin(p: Path)
    requires IsPath(p)
    ensures SafeRelative(Join(p)) == Some(p)
  {
    SplitJoin(p);
    SignificantOfPath(p);
    assert ".." !in p;
    assert Join(p)[0] == p[0][0];
  }

  lemma {:induction false} SignificantLaws(a: seq<string>, b: seq<string>, x: string)
    ensures Significant(a + b) == Significant(a) + Significant(b)
    ensures Significant([x]) == if x == "" || x == "." then [] else [x]
  {
    assert Significant([x]) == (if x == "" || x == "." then [] else [x]) by {
      assert [x][1..] == [] && Significant([]) == [];
    }
    if a == [] {
      assert a + b == b;
    } else {
      SignificantLaws(a[1..], b, x);
      assert (a + b)[1..] == a[1..] + b;
      var head := if a[0] == "" || a[0] == "." then [] else [a[0]];
      assert head + (Significant(a[1..]) + Significant(b)) == (head + Significant(a[1..])) + Significant(b);
    }
  }

  lemma {:induction false} SignificantHas(components: seq<string>)
    ensures forall x :: x in Significant(components) <==> x in components && x != "" && x != "."
  {
    if components != [] {
      SignificantHas(components[1..]);
      assert components == [components[0]] + components[1..];
    }
  }

  /** Which member names are refused as unsafe; all others name the path of their significant components. */
  lemma SafeRelativeExactly(s: string)
    ensures SafeRelative(s) == None <==>
      || "/" <= s
      || ".." in Split(s)
      || forall x | x in Split(s) :: x == "" || x == "."
    ensures SafeRelative(s).Some? ==> SafeRelative(s).value == Significant(Split(s))
  {
    hide Split, Significant;
    SignificantHas(Split(s));
    var parts := Significant(Split(s));
    assert parts == [] <==> forall x :: x !in parts by {
      assert parts != [] ==> parts[0] in parts;
    }
  }

  // ----- trees and members -----

  datatype Node = Dir | File(content: seq<byte>, executable: bool)

  type Tree = map<Path, Node>

  /** Every entry has a proper name, and lies in a directory of the tree. */
  ghost predicate ParentClosed(tree: Tree) {
    forall p | p in tree :: IsPath(p) && (|p| > 1 ==> p[..|p| - 1] in tree && tree[p[..|p| - 1]] == Dir)
  }

  datatype Kind = Directory | Regular | Link | Special

  datatype Member = Member(name: string, kind: Kind, mode: nat, data: seq<byte>)

  const MODE_755: nat := 7 * 64 + 5 * 8 + 5
  const MODE_644: nat := 6 * 64 + 4 * 8 + 4

  function MemberFor(p: Path, node: Node): Member
    requires p != []
  {
    match node
    case Dir => Member(Join(p), Directory, MODE_755, [])
    case File(content, executable) => Member(Join(p), Regular, if executable then MODE_755 else MODE_644, content)
  }

  function Names(members: seq<Member>): seq<string> {
    seq(|members|, i requires 0 <= i < |members| => members[i].name)
  }

  /** The member written for one entry of the tree. */
  ghost predicate IsEntry(tree: Tree, m: Member) {
    var p := Split(m.name);
    p in tree && p != [] && m == MemberFor(p, tree[p])
  }

  /** One member per entry, in ascending order of names. */
  ghost predicate IsArchive(tree: Tree, members: seq<Member>) {
    && Ascending(Names(members))
    && (forall i | 0 <= i < |members| :: IsEntry(tree, members[i]))
    && (forall p | p in tree :: p != [] && Join(p) in Names(members))
  }

  /** The archive depends on the tree alone, not on the order in which directories are listed. */
  lemma ArchiveIsUnique(tree: Tree, a: seq<Member>, b: seq<Member>)
    requires ParentClosed(tree) && IsArchive(tree, a) && IsArchive(tree, b)
    ensures a == b
  {
    forall x
      ensures x in Names(a) <==> x in Names(b)
    {
      NamesCover(tree, a, b, x);
      NamesCover(tree, b, a, x);
    }
    AscendingIsUnique(Names(a), Names(b));
    forall i | 0 <= i < |a|
      ensures a[i] == b[i]
    {
      assert Names(a)[i] == Names(b)[i];
      assert IsEntry(tree, a[i]) && IsEntry(tree, b[i]);
    }
  }

  /** What the archive holds for each entry: octal modes 755 and 644, and a file's bytes. */
  lemma MembersExactly(tree: Tree, members: seq<Member>, i: nat)
    requires ParentClosed(tree) && IsArchive(tree, members) && i < |members|
    ensures
      var m := members[i];
      var p := Split(m.name);
      && p in tree && p != [] && m.name == Join(p)
      && match tree[p]
         case Dir => m.kind == Directory && m.mode == 493 && m.data == []
         case File(content, executable) => m.kind == Regular && m.mode == (if executable then 493 else 420) && m.data == content
  {
    hide Split, Join, Ascending;
    assert IsEntry(tree, members[i]);
  }

  lemma NamesCover(tree: Tree, a: seq<Member>, b: seq<Member>, x: string)
    requires IsArchive(tree, a) && IsArchive(tree, b)
    ensures x in Names(a) ==> x in Names(b)
  {
    if x in Names(a) {
      var i :| 0 <= i < |a| && Names(a)[i] == x;
      assert IsEntry(tree, a[i]);
    }
  }

  lemma EntryFor(tree: Tree, p: Path)
    requires ParentClosed(tree) && p in tree
    ensures IsPath(p) && Split(Join(p)) == p && IsEntry(tree, MemberFor(p, tree[p]))
  {
    SplitJoin(p);
  }

  /** The names of all entries, in ascending order, from a listing in any order. */
  method SortedNames(tree: Tree, listing: seq<Path>) returns (sorted: seq<string>)
    requires ParentClosed(tree)
    requires forall p :: p in listing <==> p in tree
    requires forall i, j | 0 <= i < j < |listing| :: listing[i] != listing[j]
    ensures Ascending(sorted)
    ensures forall p | p in tree :: p != [] && Join(p) in sorted
    ensures forall i | 0 <= i < |sorted| :: Split(sorted[i]) in tree && Split(sorted[i]) != [] && Join(Split(sorted[i])) == sorted[i]
  {
    hide IsEntry, Split, Join, ParentClosed, Ascending;
    var names: seq<string> := [];
    for n := 0 to |listing|
      invariant |names| == n
      invariant forall i | 0 <= i < n ::
        listing[i] in tree && listing[i] != [] && names[i] == Join(listing[i]) && Split(names[i]) == listing[i]
    {
      EntryFor(tree, listing[n]);
      names := names + [Join(listing[n])];
    }
    sorted := Sort(names);
    forall p | p in tree
      ensures p != [] && Join(p) in sorted
    {
      assert p in listing;
      var k :| 0 <= k < |listing| && listing[k] == p;
      assert names[k] in sorted;
    }
    forall i | 0 <= i < |sorted|
      ensures Split(sorted[i]) in tree && Split(sorted[i]) != [] && Join(Split(sorted[i])) == sorted[i]
    {
      assert sorted[i] in names;
    }
  }

  /** Write the members for a tree whose paths are listed in any order. */
  method DeterministicArchive(tree: Tree, listing: seq<Path>) returns (members: seq<Member>)
    requires ParentClosed(tree)
    requires forall p :: p in listing <==> p in tree
    requires forall i, j | 0 <= i < j < |listing| :: listing[i] != listing[j]
    ensures IsArchive(tree, members)
  {
    hide Split, Join, ParentClosed, Ascending;
    var sorted := SortedNames(tree, listing);
    members := [];
    for n := 0 to |sorted|
      invariant |members| == n
      invariant forall i | 0 <= i < n :: members[i].name == sorted[i] && IsEntry(tree, members[i])
    {
      var name := sorted[n];
      var path := Split(name);
      var m := match tree[path]
        case Dir => Member(name, Directory, MODE_755, [])
        case File(content, executable) => Member(name, Regular, if executable then MODE_755 else MODE_644, content);
      members := members + [m];
    }
    assert Names(members) == sorted;
  }

  // ----- extraction -----

  datatype Failure =
    | EmptyArchive | UnsafePath | UnsupportedMember | SpecialPermissions | TooLarge | Conflict | ForbiddenContent

  datatype Extracted = Ok(tree: Tree) | Fail(failure: Failure)

  /** Set-user-id, set-group-id or sticky. */
  predicate HasSpecialBits(mode: nat) {
    mode / 512 % 8 != 0
  }

  /** Executable for anyone. */
  predicate IsExecutable(mode: nat) {
    mode % 2 == 1 || mode / 8 % 2 == 1 || mode / 64 % 2 == 1
  }

  /** `mkdir` with parents: fails when a file is in the way. */
  function MakeDirs(fs: Tree, p: Path): Option<Tree>
    decreases |p|
  {
    if p == [] then Some(fs)
    else
      match MakeDirs(fs, p[..|p| - 1])
      case None => None
      case Some(f) => if p !in f then Some(f[p := Dir]) else if f[p] == Dir then Some(f) else None
  }

  /** Write a directory or a file, with its parents; a written file of at most 8 MiB is scanned. */
  function Write(fs: Tree, p: Path, m: Member, forbidden: seq<byte> -> bool): Extracted
    requires p != []
  {
    match MakeDirs(fs, if m.kind.Directory? then p else p[..|p| - 1])
    case None => Fail(Conflict)
    case Some(f) =>
      if m.kind.Directory? then Ok(f)
      else if p in f && f[p] == Dir then Fail(Conflict)
      else if |m.data| <= MAX_SCANNED_BYTES && forbidden(m.data) then Fail(ForbiddenContent)
      else Ok(f[p := File(m.data, IsExecutable(m.mode))])
  }

  /** One member, once the running total including it is known. */
  function Advance(fs: Tree, m: Member, total: nat, forbidden: seq<byte> -> bool): Extracted {
    match SafeRelative(m.name)
    case None => Fail(UnsafePath)
    case Some(p) =>
      if !m.kind.Directory? && !m.kind.Regular? then Fail(UnsupportedMember)
      else if HasSpecialBits(m.mode) then Fail(SpecialPermissions)
      else if total > MAX_EXPANDED_BYTES then Fail(TooLarge)
      else Write(fs, p, m, forbidden)
  }

  /** The bits of a mode, given as octal digits. */
  lemma ModeBits(special: nat, user: nat, group: nat, others: nat)
    requires user < 8 && group < 8 && others < 8
    ensures
      var mode := special * 512 + user * 64 + group * 8 + others;
      && (HasSpecialBits(mode) <==> special % 8 != 0)
      && (IsExecutable(mode) <==> user % 2 == 1 || group % 2 == 1 || others % 2 == 1)
  {
    var upper := special * 8 + user;
    var most := upper * 8 + group;
    var mode := most * 8 + others;
    LastDigit(most, others);
    LastDigit(upper, group);
    LastDigit(special, user);
    assert mode / 64 == mode / 8 / 8 && mode / 512 == mode / 64 / 8;
  }

  lemma LastDigit(q: nat, d: nat)
    requires d < 8
    ensures (q * 8 + d) / 8 == q && (q * 8 + d) % 2 == d % 2
  {
    var x := q * 8 + d;
    assert x == 8 * (x / 8) + x % 8;
    var h := 4 * q + d / 2;
    assert x == 2 * h + d % 2;
    SameParity(x, h, d % 2);
  }

  lemma SameParity(x: nat, h: nat, b: nat)
    requires x == 2 * h + b && b < 2
    ensures x % 2 == b
  {
  }

  /** The path itself, or a directory it leads through. */
  predicate Along(q: Path, p: Path) {
    q != [] && q <= p
  }

  /** Directories along the path are made as far as they are missing, unless a file is in the way. */
  lemma {:induction false} MakeDirsExactly(fs: Tree, p: Path)
    ensures MakeDirs(fs, p).Some? <==> forall q | q in fs && Along(q, p) :: fs[q] == Dir
    ensures MakeDirs(fs, p).Some? ==>
      var f := MakeDirs(fs, p).value;
      && (forall q :: q in f <==> q in fs || Along(q, p))
      && (forall q | q in f :: f[q] == if q in fs then fs[q] else Dir)
    decreases |p|
  {
    if p != [] {
      var up := p[..|p| - 1];
      MakeDirsExactly(fs, up);
      forall q
        ensures Along(q, p) <==> Along(q, up) || q == p
      {
        assert q < p ==> q == up[..|q|];
      }
    }
  }

  /** What writing one member comes to: the failure, or the whole new tree. */
  lemma WriteExactly(fs: Tree, p: Path, m: Member, forbidden: seq<byte> -> bool)
    requires p != []
    ensures
      var r := Write(fs, p, m, forbidden);
      var blocked :=
        || (exists q | q in fs && Along(q, p) && q != p :: fs[q] != Dir)
        || (p in fs && (fs[p] == Dir) != m.kind.Directory?);
      && (r == Fail(Conflict) <==> blocked)
      && (r == Fail(ForbiddenContent) <==>
            !blocked && !m.kind.Directory? && |m.data| <= 8_388_608 && forbidden(m.data))
      && (r.Fail? ==> r.failure == Conflict || r.failure == ForbiddenContent)
      && (r.Ok? ==>
            && (forall q :: q in r.tree <==> q in fs || Along(q, p))
            && r.tree[p] == (if m.kind.Directory? then Dir else File(m.data, IsExecutable(m.mode)))
            && (forall q | q in r.tree && q != p :: r.tree[q] == if q in fs then fs[q] else Dir))
  {
    hide MakeDirs, IsExecutable;
    var up := p[..|p| - 1];
    MakeDirsExactly(fs, if m.kind.Directory? then p else up);
    forall q
      ensures Along(q, p) <==> Along(q, up) || q == p
      ensures Along(q, up) ==> q != p
    {
      assert q < p ==> q == up[..|q|];
    }
  }

  /** Why a member is refused before it is written. */
  lemma AdvanceExactly(fs: Tree, m: Member, total: nat, forbidden: seq<byte> -> bool)
    ensures
      var r := Advance(fs, m, total, forbidden);
      var safe := SafeRelative(m.name).Some?;
      var supported := m.kind == Directory || m.kind == Regular;
      && (r == Fail(UnsafePath) <==> !safe)
      && (r == Fail(UnsupportedMember) <==> safe && !supported)
      && (r == Fail(SpecialPermissions) <==> safe && supported && m.mode / 512 % 8 != 0)
      && (r == Fail(TooLarge) <==> safe && supported && m.mode / 512 % 8 == 0 && total > 2_147_483_648)
      && (safe && supported && m.mode / 512 % 8 == 0 && total <= 2_147_483_648 ==>
            r == Write(fs, SafeRelative(m.name).value, m, forbidden))
  {
    hide SafeRelative, Write;
    if SafeRelative(m.name).Some? {
      WriteExactly(fs, SafeRelative(m.name).value, m, forbidden);
    }
  }

  function Size(members: seq<Member>): nat {
    if members == [] then 0 else Size(members[..|members| - 1]) + |members[|members| - 1].data|
  }

  /** Members in sequence; the first failure ends it. */
  function ExtractAll(members: seq<Member>, forbidden: seq<byte> -> bool): Extracted {
    if members == [] then Ok(map[])
    else
      var n := |members| - 1;
      match ExtractAll(members[..n], forbidden)
      case Fail(failure) => Fail(failure)
      case Ok(fs) => Advance(fs, members[n], Size(members), forbidden)
  }

  lemma ExtractStep(members: seq<Member>, n: nat, forbidden: seq<byte> -> bool)
    requires n < |members| && ExtractAll(members[..n], forbidden).Ok?
    ensures Size(members[..n + 1]) == Size(members[..n]) + |members[n].data|
    ensures
      var r := Advance(ExtractAll(members[..n], forbidden).tree, members[n], Size(members[..n + 1]), forbidden);
      && ExtractAll(members[..n + 1], forbidden) == r
      && (r.Fail? ==> ExtractAll(members, forbidden) == r)
  {
    hide Advance;
    assert members[..n + 1][..n] == members[..n];
    FailureStays(members, n + 1, forbidden);
  }

  method WriteMember(fs: Tree, target: Path, m: Member, forbidden: seq<byte> -> bool) returns (r: Extracted)
    requires target != []
    ensures r == Write(fs, target, m, forbidden)
  {
    var made := MakeDirs(fs, if m.kind.Directory? then target else target[..|target| - 1]);
    if made.None? {
      return Fail(Conflict);
    }
    var f := made.value;
    if m.kind.Directory? {
      return Ok(f);
    }
    if target in f && f[target] == Dir {
      return Fail(Conflict);
    }
    f := f[target := File(m.data, IsExecutable(m.mode))];
    if |m.data| <= MAX_SCANNED_BYTES && forbidden(m.data) {
      return Fail(ForbiddenContent);
    }
    r := Ok(f);
  }

  /** `extract_release` into an empty destination. */
  method ExtractRelease(members: seq<Member>, forbidden: seq<byte> -> bool) returns (r: Extracted)
    ensures r == if members == [] then Fail(EmptyArchive) else ExtractAll(members, forbidden)
  {
    if members == [] {
      return Fail(EmptyArchive);
    }
    var total := 0;
    var fs: Tree := map[];
    assert members[..0] == [];
    assert Size(members[..0]) == 0 && ExtractAll(members[..0], forbidden) == Ok(fs);
    hide ExtractAll, Size, SafeRelative, Write, HasSpecialBits;
    for n := 0 to |members|
      invariant total == Size(members[..n])
      invariant ExtractAll(members[..n], forbidden) == Ok(fs)
    {
      var m := members[n];
      ExtractStep(members, n, forbidden);
      var safe := SafeRelative(m.name);
      if safe.None? {
        return Fail(UnsafePath);
      }
      if m.kind.Link? || m.kind.Special? {
        return Fail(UnsupportedMember);
      }
      if HasSpecialBits(m.mode) {
        return Fail(SpecialPermissions);
      }
      total := total + |m.data|;
      if total > MAX_EXPANDED_BYTES {
        return Fail(TooLarge);
      }
      var written := WriteMember(fs, safe.value, m, forbidden);
      if written.Fail? {
        return written;
      }
      fs := written.tree;
    }
    assert members[..|members|] == members;
    r := Ok(fs);
  }

  lemma {:induction false} FailureStays(members: seq<Member>, n: nat, forbidden: seq<byte> -> bool)
    requires n <= |members|
    ensures ExtractAll(members[..n], forbidden).Fail? ==> ExtractAll(members, forbidden) == ExtractAll(members[..n], forbidden)
    decreases |members|
  {
    if n == |members| {
      assert members[..n] == members;
    } else {
      var most := members[..|members| - 1];
      FailureStays(most, n, forbidden);
      assert most[..n] == members[..n];
    }
  }

  // ----- whatever the archive holds -----

  lemma {:induction false} SplitHasNoSlash(s: string)
    ensures forall i | 0 <= i < |Split(s)| :: '/' !in Split(s)[i]
  {
    if s != "" {
      SplitHasNoSlash(s[1..]);
    }
  }

  lemma {:induction false} SignificantParts(components: seq<string>)
    ensures forall x | x in Significant(components) :: x in components && x != "" && x != "."
  {
    if components != [] {
      SignificantParts(components[1..]);
    }
  }

  /** A safe path consists of proper names: it cannot leave the directory it is joined to. */
  lemma SafeIsPath(s: string)
    requires SafeRelative(s).Some?
    ensures IsPath(SafeRelative(s).value)
  {
    hide Split, Significant;
    var parts := SafeRelative(s).value;
    SplitHasNoSlash(s);
    SignificantParts(Split(s));
    forall i | 0 <= i < |parts|
      ensures IsName(parts[i])
    {
      assert parts[i] in parts;
    }
  }

  lemma {:induction false} MakeDirsKeeps(fs: Tree, p: Path)
    requires ParentClosed(fs) && (p == [] || IsPath(p)) && MakeDirs(fs, p).Some?
    ensures
      var f := MakeDirs(fs, p).value;
      && ParentClosed(f) && (p != [] ==> p in f && f[p] == Dir)
      && forall q | q in f :: f[q] == Dir || (q in fs && fs[q] == f[q])
    decreases |p|
  {
    if p != [] {
      var up := p[..|p| - 1];
      assert up == [] || IsPath(up);
      MakeDirsKeeps(fs, up);
    }
  }

  /** No small file in the tree has forbidden content. */
  ghost predicate Harmless(fs: Tree, forbidden: seq<byte> -> bool) {
    forall p | p in fs && fs[p].File? && |fs[p].content| <= MAX_SCANNED_BYTES :: !forbidden(fs[p].content)
  }

  lemma WriteKeeps(fs: Tree, p: Path, m: Member, forbidden: seq<byte> -> bool)
    requires ParentClosed(fs) && Harmless(fs, forbidden) && IsPath(p) && Write(fs, p, m, forbidden).Ok?
    ensures ParentClosed(Write(fs, p, m, forbidden).tree) && Harmless(Write(fs, p, m, forbidden).tree, forbidden)
  {
    hide MakeDirs, IsExecutable;
    var up := p[..|p| - 1];
    assert up == [] || IsPath(up);
    MakeDirsKeeps(fs, if m.kind.Directory? then p else up);
    var f := MakeDirs(fs, if m.kind.Directory? then p else up).value;
    assert Harmless(f, forbidden);
    if !m.kind.Directory? {
      FileKeeps(f, p, File(m.data, IsExecutable(m.mode)));
    }
  }

  lemma FileKeeps(f: Tree, p: Path, file: Node)
    requires ParentClosed(f) && IsPath(p) && file.File? && (p in f ==> f[p] != Dir)
    requires |p| > 1 ==> p[..|p| - 1] in f && f[p[..|p| - 1]] == Dir
    ensures ParentClosed(f[p := file])
  {
  }

  /**
   Whatever members an archive holds, what is extracted without a refusal is a parent-closed tree of proper names
   without forbidden content, made of files and directories only and within the size limit.
   */
  lemma {:induction false} ExtractedIsSafe(members: seq<Member>, forbidden: seq<byte> -> bool)
    requires ExtractAll(members, forbidden).Ok?
    ensures ParentClosed(ExtractAll(members, forbidden).tree) && Harmless(ExtractAll(members, forbidden).tree, forbidden)
    ensures members == [] || Size(members) <= MAX_EXPANDED_BYTES
    ensures forall i | 0 <= i < |members| ::
      (members[i].kind.Directory? || members[i].kind.Regular?) && !HasSpecialBits(members[i].mode)
    decreases |members|
  {
    hide ParentClosed, Harmless, SafeRelative, Write, HasSpecialBits;
    if members == [] {
      NothingIsSafe(forbidden);
    } else {
      var n := |members| - 1;
      ExtractedIsSafe(members[..n], forbidden);
      assert forall i | 0 <= i < n :: members[..n][i] == members[i];
      SafeIsPath(members[n].name);
      WriteKeeps(ExtractAll(members[..n], forbidden).tree, SafeRelative(members[n].name).value, members[n], forbidden);
    }
  }

  lemma NothingIsSafe(forbidden: seq<byte> -> bool)
    ensures ParentClosed(map[]) && Harmless(map[], forbidden)
  {
  }

  // ----- the round trip -----

  /** Everything in `fs` is in the tree, as it is in the tree. */
  ghost predicate Within(fs: Tree, tree: Tree) {
    forall p | p in fs :: p in tree && fs[p] == tree[p]
  }

  lemma {:induction false} MakeDirsWithin(fs: Tree, p: Path, tree: Tree)
    requires ParentClosed(tree) && Within(fs, tree)
    requires p == [] || (p in tree && tree[p] == Dir)
    ensures
      var r := MakeDirs(fs, p);
      && r.Some? && Within(r.value, tree)
      && (forall q | q in fs :: q in r.value)
      && (p != [] ==> p in r.value)
    decreases |p|
  {
    if p != [] {
      assert |p| == 1 ==> p[..|p| - 1] == [];
      MakeDirsWithin(fs, p[..|p| - 1], tree);
    }
  }

  /** What a member written for an entry says to the extractor. */
  lemma EntryShape(tree: Tree, m: Member)
    requires ParentClosed(tree) && IsEntry(tree, m)
    ensures
      var p := Split(m.name);
      && p in tree && IsPath(p) && SafeRelative(m.name) == Some(p)
      && (m.kind.Directory? || m.kind.Regular?) && !HasSpecialBits(m.mode)
      && tree[p] == (if m.kind.Directory? then Dir else File(m.data, IsExecutable(m.mode)))
  {
    SafeRelativeOfJoin(Split(m.name));
  }

  /** Unpacking the member of one entry puts exactly that entry back. */
  lemma EntryComesBack(fs: Tree, m: Member, total: nat, tree: Tree, forbidden: seq<byte> -> bool)
    requires ParentClosed(tree) && Within(fs, tree) && IsEntry(tree, m)
    ensures
      var r := Advance(fs, m, total, forbidden);
      var refused := m.kind.Regular? && |m.data| <= MAX_SCANNED_BYTES && forbidden(m.data);
      if total > MAX_EXPANDED_BYTES then r == Fail(TooLarge)
      else if refused then r == Fail(ForbiddenContent)
      else
        && r.Ok? && Within(r.tree, tree)
        && (forall q | q in fs :: q in r.tree)
        && Split(m.name) in r.tree
  {
    hide IsEntry, Split, SafeRelative, HasSpecialBits, IsExecutable, ParentClosed, Within, Write;
    EntryShape(tree, m);
    WriteComesBack(fs, Split(m.name), m, tree, forbidden);
  }

  lemma WriteComesBack(fs: Tree, p: Path, m: Member, tree: Tree, forbidden: seq<byte> -> bool)
    requires ParentClosed(tree) && Within(fs, tree) && p in tree && p != [] && (m.kind.Directory? || m.kind.Regular?)
    requires tree[p] == (if m.kind.Directory? then Dir else File(m.data, IsExecutable(m.mode)))
    ensures
      var r := Write(fs, p, m, forbidden);
      if m.kind.Regular? && |m.data| <= MAX_SCANNED_BYTES && forbidden(m.data) then r == Fail(ForbiddenContent)
      else
        && r.Ok? && Within(r.tree, tree)
        && (forall q | q in fs :: q in r.tree)
        && p in r.tree
  {
    hide IsExecutable, MakeDirs;
    assert |p| == 1 ==> p[..|p| - 1] == [];
    MakeDirsWithin(fs, if m.kind.Directory? then p else p[..|p| - 1], tree);
  }

  lemma NothingWithin(tree: Tree)
    ensures Within(map[], tree)
  {
  }

  ghost predicate Clean(members: seq<Member>, forbidden: seq<byte> -> bool) {
    forall i | 0 <= i < |members| ::
      members[i].kind.Regular? && |members[i].data| <= MAX_SCANNED_BYTES ==> !forbidden(members[i].data)
  }

  lemma {:induction false} EntriesComeBack(tree: Tree, members: seq<Member>, forbidden: seq<byte> -> bool)
    requires ParentClosed(tree)
    requires forall i | 0 <= i < |members| :: IsEntry(tree, members[i])
    ensures
      var r := ExtractAll(members, forbidden);
      && (r.Ok? <==> Size(members) <= MAX_EXPANDED_BYTES && Clean(members, forbidden))
      && (r.Ok? ==> Within(r.tree, tree) && forall i | 0 <= i < |members| :: Split(members[i].name) in r.tree)
    decreases |members|
  {
    hide IsEntry, ParentClosed, Advance, Split, Within;
    if members == [] {
      NothingWithin(tree);
    } else {
      var n := |members| - 1;
      EntriesComeBack(tree, members[..n], forbidden);
      var before := ExtractAll(members[..n], forbidden);
      assert Clean(members, forbidden) ==> Clean(members[..n], forbidden);
      if before.Ok? {
        EntryComesBack(before.tree, members[n], Size(members), tree, forbidden);
      }
    }
  }

  /**
   Extracting the archive of any parent-closed tree gives back exactly that tree: the same paths,
   bytes and execute bits.  It is refused exactly when the tree is empty, larger than 2 GiB, or holds
   a file of at most 8 MiB with forbidden content.
   */
  lemma RoundTrip(tree: Tree, members: seq<Member>, forbidden: seq<byte> -> bool)
    requires ParentClosed(tree) && IsArchive(tree, members)
    ensures members == [] <==> tree == map[]
    ensures
      var r := ExtractAll(members, forbidden);
      && (r.Ok? <==> Size(members) <= MAX_EXPANDED_BYTES && Clean(members, forbidden))
      && (r.Ok? ==> r.tree == tree)
  {
    hide *;
    EmptyArchiveOf(tree, members);
    EntriesComeBack(tree, members, forbidden);
    var r := ExtractAll(members, forbidden);
    if r.Ok? {
      forall p | p in tree
        ensures p in r.tree
      {
        var i := MemberOf(tree, members, p);
      }
      SameTree(r.tree, tree);
    }
  }

  lemma SameTree(fs: Tree, tree: Tree)
    requires Within(fs, tree) && forall p | p in tree :: p in fs
    ensures fs == tree
  {
  }

  lemma MemberOf(tree: Tree, members: seq<Member>, p: Path) returns (i: nat)
    requires ParentClosed(tree) && IsArchive(tree, members) && p in tree
    ensures i < |members| && Split(members[i].name) == p
  {
    hide Split, Join, IsEntry;
    assert Join(p) in Names(members);
    i :| i < |members| && Names(members)[i] == Join(p);
    SplitJoin(p);
  }

  lemma EmptyArchiveOf(tree: Tree, members: seq<Member>)
    requires IsArchive(tree, members)
    ensures members == [] <==> tree == map[]
    ensures forall i | 0 <= i < |members| :: IsEntry(tree, members[i])
  {
    if members != [] {
      assert IsEntry(tree, members[0]);
    }
    if tree != map[] {
      var p :| p in tree;
      assert Join(p) in Names(members);
    }
  }
}
