/** `backupPackageLists` (backup.js:49-81) without its subprocesses and
    files: the text of `pacman -Qge`, `pacman -Qeim` and `pacman -Qein`
    goes in, the text of `grouplist` and `pkglist` comes out. */
module Backup {
  import opened JsString
  import opened Helpers
  import opened PackageInfo

  // ---------------------------------------------------------------------
  // Packages installed through groups (backup.js:50-56)

  /** A line of `pacman -Qge` cut at white space; `split` never returns an
      empty array. */
  type Row = r: seq<string> | |r| > 0 witness [""]

  /** `l.split(/\s+/)`. */
  function Tokens(l: string): Row {
    SplitWs(l)
  }

  /** The rows of the trimmed output, one per line. */
  function GroupRows(out: string): seq<Row> {
    MapSeq(Tokens, SplitOn(Trim(out), "\n"))
  }

  /** `l => l[0]`: the group a line names. */
  function GroupOf(row: Row): string {
    row[0]
  }

  /** `([, p]) => p`: the package a line names, `None` when the line has a
      single word. */
  function PackageOf(row: Row): Option<string> {
    if |row| > 1 then Some(row[1]) else None
  }

  /** `l => l.map(([, p]) => p)`. */
  function Members(rows: seq<Row>): seq<Option<string>> {
    MapSeq(PackageOf, rows)
  }

  /** The pair `[groups, pkgsInGroup]`. */
  datatype GroupListing = GroupListing(groups: seq<string>, pkgsInGroup: seq<Option<string>>)

  /** What the first pipeline of `backupPackageLists` computes from the
      output of `pacman -Qge`. */
  function ListGroups(out: string): GroupListing {
    var rows := GroupRows(out);
    var byGroup := MapObj(Grouped(rows, GroupOf), Members);
    GroupListing(byGroup.keys, Flat(Values(byGroup)))
  }

  /** The groups are the first words of the lines, each once, in the
      order in which they first appear. */
  lemma {:induction false} GroupsOfListing(out: string)
    ensures ListGroups(out).groups == FirstSeen(MapSeq(GroupOf, GroupRows(out)))
    ensures Distinct(ListGroups(out).groups)
    ensures forall g :: g in ListGroups(out).groups <==>
      exists i :: 0 <= i < |GroupRows(out)| && GroupOf(GroupRows(out)[i]) == g
  {
    var rows := GroupRows(out);
    var g := Grouped(rows, GroupOf);
    var groups := ListGroups(out).groups;
    assert groups == g.keys;
    assert groups == FirstSeen(MapSeq(GroupOf, rows)) by {
      GroupedSpec(rows, GroupOf);
    }
    assert forall k :: k in groups <==> exists i :: 0 <= i < |rows| && GroupOf(rows[i]) == k by {
      GroupedKeys(rows, GroupOf);
    }
  }

  /** No group name holds white space, so none holds a newline. */
  lemma {:induction false} GroupsAreWords(out: string)
    ensures forall i :: 0 <= i < |ListGroups(out).groups| ==> NoSpace(ListGroups(out).groups[i])
  {
    var rows := GroupRows(out);
    var groups := ListGroups(out).groups;
    GroupsOfListing(out);
    forall i | 0 <= i < |groups| ensures NoSpace(groups[i]) {
      assert groups[i] in groups;
      var j :| 0 <= j < |rows| && GroupOf(rows[j]) == groups[i];
    }
  }

  /** `pkgsInGroup` lists the second words of the lines group by group, in
      the order of `groups`, keeping the line order inside each group. */
  lemma {:induction false} PackagesInGroupOrder(out: string)
    ensures ListGroups(out).pkgsInGroup ==
      Gather(ListGroups(out).groups, GroupRows(out), GroupOf, PackageOf)
  {
    var rows := GroupRows(out);
    var g := Grouped(rows, GroupOf);
    var byGroup := MapObj(g, Members);
    GroupedSpec(rows, GroupOf);
    var vs := Values(byGroup);
    forall i | 0 <= i < |vs| ensures vs[i] == MapSeq(PackageOf, Bucket(rows, GroupOf, g.keys[i])) {
      assert vs[i] == Members(g.vals[g.keys[i]]);
    }
    FlatBuckets(vs, g.keys, rows, GroupOf, PackageOf);
  }

  /** `pkgsInGroup` has one entry per line of the output: the second words
      of the lines, reordered. */
  lemma {:induction false} PackagesInGroupCount(out: string)
    ensures |ListGroups(out).pkgsInGroup| == |SplitOn(Trim(out), "\n")|
    ensures multiset(ListGroups(out).pkgsInGroup) == multiset(MapSeq(PackageOf, GroupRows(out)))
  {
    var rows := GroupRows(out);
    var byGroup := MapObj(Grouped(rows, GroupOf), Members);
    var vs := Values(byGroup);
    FlatGrouped(rows, GroupOf, PackageOf, vs);
    var s := ListGroups(out).pkgsInGroup;
    assert |s| == |multiset(s)|;
    assert |MapSeq(PackageOf, rows)| == |multiset(MapSeq(PackageOf, rows))|;
  }

  /** Empty output still yields one group, the empty name, with one
      `undefined` member. */
  lemma {:induction false} ListGroupsEmpty()
    ensures ListGroups("") == GroupListing([""], [None])
  {
    var r: Row := [""];
    var rows := GroupRows("");
    assert rows == [r] by {
      assert Trim("") == "";
      assert SplitOn("", "\n") == [""];
    }
    var g: Obj<string, seq<Row>> := Grouped(rows, GroupOf);
    assert g == Obj([""], map["" := [r]]) by {
      assert rows[..0] == [];
    }
    var byGroup: Obj<string, seq<Option<string>>> := MapObj(g, Members);
    assert byGroup.vals[""] == [None];
    assert Values(byGroup) == [[None]];
  }

  // ---------------------------------------------------------------------
  // Explicitly installed packages (backup.js:58-62 and 69)

  /** `.filter(i => i)`: the non-empty strings, in order. */
  function NonEmpty(s: seq<string>): seq<string>
  {
    if |s| == 0 then []
    else
      var r := NonEmpty(s[..|s| - 1]);
      if s[|s| - 1] != "" then r + [s[|s| - 1]] else r
  }

  /** The filter keeps exactly the non-empty strings. */
  lemma {:induction false} NonEmptyMembers(s: seq<string>)
    ensures forall x :: x in NonEmpty(s) <==> x in s && x != ""
  {
    if |s| > 0 {
      assert s == s[..|s| - 1] + [s[|s| - 1]];
      NonEmptyMembers(s[..|s| - 1]);
    }
  }

  /** Filtering a concatenation filters each part and keeps them in
      order. */
  lemma {:induction false} NonEmptyAppend(a: seq<string>, b: seq<string>)
    ensures NonEmpty(a + b) == NonEmpty(a) + NonEmpty(b)
    decreases |b|
  {
    if |b| > 0 {
      var b' := b[..|b| - 1];
      assert (a + b)[..|a + b| - 1] == a + b';
      NonEmptyAppend(a, b');
    } else {
      assert a + b == a;
    }
  }

  /** Nothing is deduplicated: a non-empty string keeps all its copies. */
  lemma {:induction false} NonEmptyCounts(s: seq<string>, x: string)
    ensures multiset(NonEmpty(s))[x] == if x == "" then 0 else multiset(s)[x]
  {
    if |s| > 0 {
      var s' := s[..|s| - 1];
      assert s == s' + [s[|s| - 1]];
      NonEmptyCounts(s', x);
    }
  }

  /** The record blocks of `pacman -Qi` output: the non-empty pieces of
      the output cut at each `\n\n`, leftmost first. */
  function Blocks(out: string): seq<string> {
    NonEmpty(SplitOn(out, "\n\n"))
  }

  /** A block in which no blank line starts, followed by `\n\n`, is the
      first block; the rest of the output is cut on its own. */
  lemma {:induction false} BlocksCons(p: string, rest: string)
    requires p != "" && NoMatchBefore(p + "\n\n", "\n\n", |p|)
    ensures Blocks(p + "\n\n" + rest) == [p] + Blocks(rest)
  {
    SplitOnFirst(p, "\n\n", rest);
    NonEmptyAppend([p], SplitOn(rest, "\n\n"));
    assert [p][..0] == [];
  }

  /** Output in which `\n\n` never occurs is a single block, unless it is
      empty. */
  lemma {:induction false} BlocksNone(out: string)
    requires out != "" && NoMatchBefore(out, "\n\n", |out|)
    ensures Blocks(out) == [out]
  {
    SplitOnNone(out, "\n\n");
    assert [out][..0] == [];
    assert NonEmpty([]) == [];
  }

  /** A run of three newlines is cut at its first two. */
  lemma {:induction false} BlocksExample()
    ensures Blocks("a\n\n\nb") == ["a", "\nb"]
  {
    assert NoMatchBefore("a" + "\n\n", "\n\n", 1) by {
      assert ("a" + "\n\n")[0..] == "a\n\n";
    }
    BlocksCons("a", "\nb");
    assert NoMatchBefore("\nb", "\n\n", 2) by {
      assert "\nb"[0..] == "\nb" && "\nb"[1] != "\n\n"[1];
      assert |"\nb"[1..]| < |"\n\n"|;
    }
    BlocksNone("\nb");
    assert "a" + "\n\n" + "\nb" == "a\n\n\nb";
  }

  /** What the second pipeline computes from the output of
      `pacman -Qeim` or `pacman -Qein`: the `Name` of each record. */
  function InstalledNames(out: string): seq<Option<string>> {
    MapSeq(NameOf, Blocks(out))
  }

  /** `_parsePackageInfo` applied to each block, then `i.Name`. */
  method ReadNames(out: string) returns (names: seq<Option<string>>)
    ensures names == InstalledNames(out)
  {
    var blocks := Blocks(out);
    names := [];
    for i := 0 to |blocks|
      invariant |names| == i
      invariant forall j :: 0 <= j < i ==> names[j] == NameOf(blocks[j])
    {
      var info := ParsePackageInfo(blocks[i]);
      names := names + [Field(info, "Name")];
    }
    assert names == MapSeq(NameOf, blocks);
  }

  /** `list.filter(p => !excluded.includes(p))`. */
  function Without(list: seq<Option<string>>, excluded: seq<Option<string>>): (r: seq<Option<string>>)
    ensures |r| <= |list|
    ensures forall i :: 0 <= i < |r| ==> r[i] !in excluded
  {
    if |list| == 0 then []
    else
      var r := Without(list[..|list| - 1], excluded);
      var p := list[|list| - 1];
      if p in excluded then r else r + [p]
  }

  /** A package is kept exactly when it is listed and not excluded. */
  lemma {:induction false} WithoutMembers(list: seq<Option<string>>, excluded: seq<Option<string>>)
    ensures forall p :: p in Without(list, excluded) <==> p in list && p !in excluded
  {
    if |list| > 0 {
      var list' := list[..|list| - 1];
      assert list == list' + [list[|list| - 1]];
      WithoutMembers(list', excluded);
    }
  }

  /** Filtering a concatenation filters each part and keeps them in
      order. */
  lemma {:induction false} WithoutAppend(a: seq<Option<string>>, b: seq<Option<string>>, excluded: seq<Option<string>>)
    ensures Without(a + b, excluded) == Without(a, excluded) + Without(b, excluded)
    decreases |b|
  {
    if |b| > 0 {
      var b' := b[..|b| - 1];
      assert (a + b)[..|a + b| - 1] == a + b';
      WithoutAppend(a, b', excluded);
    } else {
      assert a + b == a;
    }
  }

  /** Nothing is deduplicated: a kept package keeps all its copies. */
  lemma {:induction false} WithoutCounts(list: seq<Option<string>>, excluded: seq<Option<string>>, p: Option<string>)
    ensures multiset(Without(list, excluded))[p] == if p in excluded then 0 else multiset(list)[p]
  {
    if |list| > 0 {
      var list' := list[..|list| - 1];
      assert list == list' + [list[|list| - 1]];
      WithoutCounts(list', excluded, p);
    }
  }

  /** Filtering twice is filtering once. */
  lemma {:induction false} WithoutIdempotent(list: seq<Option<string>>, excluded: seq<Option<string>>)
    ensures Without(Without(list, excluded), excluded) == Without(list, excluded)
  {
    if |list| > 0 {
      var list' := list[..|list| - 1];
      var p := list[|list| - 1];
      var r := Without(list', excluded);
      WithoutIdempotent(list', excluded);
      if p !in excluded {
        WithoutAppend(r, [p], excluded);
        assert Without([p], excluded) == [p] by {
          assert [p][..0] == [];
        }
      }
    }
  }

  /** `explicitly`: the AUR packages, then the repository packages, each
      list without the packages installed through a group. */
  function Explicitly(aur: seq<Option<string>>, repo: seq<Option<string>>, inGroup: seq<Option<string>>): (r: seq<Option<string>>)
    ensures |r| <= |aur| + |repo|
    ensures forall i :: 0 <= i < |r| ==> r[i] !in inGroup
  {
    FlatPair(Without(aur, inGroup), Without(repo, inGroup));
    Flat([Without(aur, inGroup), Without(repo, inGroup)])
  }

  /** The AUR packages come first, then the repository packages; a package
      is listed exactly when it is installed and in no group, as often as
      it is installed. */
  lemma {:induction false} ExplicitlySpec(aur: seq<Option<string>>, repo: seq<Option<string>>, inGroup: seq<Option<string>>)
    ensures Explicitly(aur, repo, inGroup) == Without(aur, inGroup) + Without(repo, inGroup)
    ensures forall p :: p in Explicitly(aur, repo, inGroup) <==> (p in aur || p in repo) && p !in inGroup
    ensures forall p ::
              multiset(Explicitly(aur, repo, inGroup))[p] ==
              (if p in inGroup then 0 else multiset(aur)[p] + multiset(repo)[p])
  {
    FlatPair(Without(aur, inGroup), Without(repo, inGroup));
    WithoutMembers(aur, inGroup);
    WithoutMembers(repo, inGroup);
    forall p ensures multiset(Explicitly(aur, repo, inGroup))[p] ==
      (if p in inGroup then 0 else multiset(aur)[p] + multiset(repo)[p])
    {
      WithoutCounts(aur, inGroup, p);
      WithoutCounts(repo, inGroup, p);
    }
  }

  /** Filtering the result again changes nothing. */
  lemma {:induction false} ExplicitlyIdempotent(aur: seq<Option<string>>, repo: seq<Option<string>>, inGroup: seq<Option<string>>)
    ensures Without(Explicitly(aur, repo, inGroup), inGroup) == Explicitly(aur, repo, inGroup)
  {
    ExplicitlySpec(aur, repo, inGroup);
    WithoutAppend(Without(aur, inGroup), Without(repo, inGroup), inGroup);
    WithoutIdempotent(aur, inGroup);
    WithoutIdempotent(repo, inGroup);
  }

  /** `yay` from the AUR is kept; `bash`, which the `base` group
      installed, is dropped. */
  lemma {:induction false} ExplicitlyExample()
    ensures Explicitly([Some("yay")], [Some("bash"), Some("vim")], [Some("base"), Some("bash")])
      == [Some("yay"), Some("vim")]
  {
    var g := [Some("base"), Some("bash")];
    assert Without([Some("yay")], g) == [Some("yay")] by {
      assert [Some("yay")][..0] == [];
      assert Some("yay") != Some("base") && Some("yay") != Some("bash");
    }
    assert Without([Some("bash"), Some("vim")], g) == [Some("vim")] by {
      var l := [Some("bash"), Some("vim")];
      assert l[..1] == [Some("bash")] && l[..1][..0] == [];
      assert Some("vim") != Some("base") && Some("vim") != Some("bash");
    }
    FlatPair([Some("yay")], [Some("vim")]);
  }

  /** A package installed from both sources is listed twice. */
  lemma {:induction false} ExplicitlyKeepsDuplicates()
    ensures Explicitly([Some("yay")], [Some("yay")], []) == [Some("yay"), Some("yay")]
  {
    assert [Some("yay")][..0] == [];
    FlatPair([Some("yay")], [Some("yay")]);
  }

  // ---------------------------------------------------------------------
  // The files written (backup.js:73-74)

  /** `i + '\n'` turns `undefined` into the text `undefined`. */
  function Show(p: Option<string>): string {
    match p
    case None => "undefined"
    case Some(name) => name
  }

  /** `list.map(i => i + '\n').join('')`. */
  function Text(list: seq<string>): (t: string)
    ensures list == [] ==> t == ""
    ensures list != [] ==> |t| > 0 && t[|t| - 1] == '\n'
  {
    if |list| == 0 then "" else Text(list[..|list| - 1]) + list[|list| - 1] + "\n"
  }

  /** Each name ends with a newline: the text is the names joined by
      newlines with an empty last piece. */
  lemma {:induction false} TextIsJoin(list: seq<string>)
    ensures Text(list) == Join(list + [""], "\n")
  {
    if |list| > 0 {
      var list' := list[..|list| - 1];
      var x := list[|list| - 1];
      assert list == list' + [x];
      assert list + [""] == list' + [x] + [""];
      TextIsJoin(list');
      JoinSnoc(list', x);
    }
  }

  /** Joining with an extra piece before the empty last one. */
  lemma {:induction false} JoinSnoc(list: seq<string>, x: string)
    ensures Join(list + [x] + [""], "\n") == Join(list + [""], "\n") + x + "\n"
    decreases |list|
  {
    if |list| == 0 {
      assert [x] + [""] == [x, ""] && [x, ""][1..] == [""];
    } else {
      var t := list[1..];
      assert (list + [x] + [""])[1..] == t + [x] + [""];
      assert (list + [""])[1..] == t + [""];
      JoinSnoc(t, x);
    }
  }

  /** Reading a written file back: the lines, without the empty piece
      after the final newline. */
  function ReadBack(t: string): (names: seq<string>)
  {
    var pieces := SplitOn(t, "\n");
    pieces[..|pieces| - 1]
  }

  /** Names without a newline are read back exactly as they were
      written. */
  lemma {:induction false} TextRoundTrip(list: seq<string>)
    requires forall i :: 0 <= i < |list| ==> '\n' !in list[i]
    ensures ReadBack(Text(list)) == list
  {
    TextIsJoin(list);
    assert forall p :: p in list + [""] ==> '\n' !in p;
    SplitOnJoin(list + [""], '\n');
    assert (list + [""])[..|list|] == list;
  }

  // ---------------------------------------------------------------------
  // The whole backup (backup.js:49-81)

  /** The packages written to `pkglist`. */
  function PackageList(groupOut: string, aurOut: string, repoOut: string): seq<Option<string>> {
    Explicitly(InstalledNames(aurOut), InstalledNames(repoOut), ListGroups(groupOut).pkgsInGroup)
  }

  /** The contents of `grouplist`. */
  function GroupListFile(groupOut: string): string {
    Text(ListGroups(groupOut).groups)
  }

  /** The contents of `pkglist`. */
  function PackageListFile(groupOut: string, aurOut: string, repoOut: string): string {
    Text(MapSeq(Show, PackageList(groupOut, aurOut, repoOut)))
  }

  /** `backupPackageLists` on the outputs of `pacman -Qge`, `pacman -Qeim`
      and `pacman -Qein`: what it writes to `grouplist` and `pkglist`. */
  method BackupPackageLists(groupOut: string, aurOut: string, repoOut: string)
    returns (grouplist: string, pkglist: string)
    ensures grouplist == GroupListFile(groupOut)
    ensures pkglist == PackageListFile(groupOut, aurOut, repoOut)
  {
    var rows := GroupRows(groupOut);
    var grouped := GroupBy(rows, GroupOf);
    var byGroup := MapValues(grouped, Members);
    var groups := byGroup.keys;
    var pkgsInGroup := Flat(Values(byGroup));
    var aurNames := ReadNames(aurOut);
    var repoNames := ReadNames(repoOut);
    var explicitly := Explicitly(aurNames, repoNames, pkgsInGroup);
    grouplist := Text(groups);
    pkglist := Text(MapSeq(Show, explicitly));
  }

  /** A package name or `undefined` that fits on one line. */
  predicate OneLine(p: Option<string>) {
    p.None? || '\n' !in p.value
  }

  /** Every name read from `pacman -Qi` output fits on one line. */
  lemma {:induction false} InstalledNamesOneLine(out: string)
    ensures forall i :: 0 <= i < |InstalledNames(out)| ==> OneLine(InstalledNames(out)[i])
  {
    var blocks := Blocks(out);
    forall i | 0 <= i < |blocks| ensures OneLine(NameOf(blocks[i])) {
      var lines := Lines(blocks[i]);
      SplitOnCharPieces(blocks[i], '\n');
      forall j | 0 <= j < |lines| ensures '\n' !in lines[j] {
        assert lines[j] in lines;
      }
      InfoValuesOneLine(lines);
    }
  }

  /** Reading `grouplist` back gives the groups. */
  lemma {:induction false} GroupListRoundTrip(groupOut: string)
    ensures ReadBack(GroupListFile(groupOut)) == ListGroups(groupOut).groups
  {
    var groups := ListGroups(groupOut).groups;
    GroupsAreWords(groupOut);
    forall i | 0 <= i < |groups| ensures '\n' !in groups[i] {
      assert IsSpace('\n');
    }
    TextRoundTrip(groups);
  }

  /** Every package written to `pkglist` fits on one line. */
  lemma {:induction false} PackageListOneLine(groupOut: string, aurOut: string, repoOut: string)
    ensures forall i :: 0 <= i < |PackageList(groupOut, aurOut, repoOut)| ==>
      OneLine(PackageList(groupOut, aurOut, repoOut)[i])
  {
    var aur := InstalledNames(aurOut);
    var repo := InstalledNames(repoOut);
    var list := PackageList(groupOut, aurOut, repoOut);
    InstalledNamesOneLine(aurOut);
    InstalledNamesOneLine(repoOut);
    ExplicitlySpec(aur, repo, ListGroups(groupOut).pkgsInGroup);
    forall i | 0 <= i < |list| ensures OneLine(list[i]) {
      assert list[i] in list;
      assert list[i] in aur || list[i] in repo;
    }
  }

  /** A name that fits on one line is written on one line; so is
      `undefined`. */
  lemma {:induction false} ShowOneLine(p: Option<string>)
    requires OneLine(p)
    ensures '\n' !in Show(p)
  {
    assert "undefined" == ['u', 'n', 'd', 'e', 'f', 'i', 'n', 'e', 'd'];
  }

  /** Reading `pkglist` back gives the explicitly installed packages, an
      `undefined` one as the text `undefined`. */
  lemma {:induction false} PackageListRoundTrip(groupOut: string, aurOut: string, repoOut: string)
    ensures ReadBack(PackageListFile(groupOut, aurOut, repoOut)) ==
      MapSeq(Show, PackageList(groupOut, aurOut, repoOut))
  {
    var list := PackageList(groupOut, aurOut, repoOut);
    var shown := MapSeq(Show, list);
    PackageListOneLine(groupOut, aurOut, repoOut);
    forall i | 0 <= i < |shown| ensures '\n' !in shown[i] {
      ShowOneLine(list[i]);
    }
    TextRoundTrip(shown);
  }
}
