/** Merging package inputs by name (src/main/link-parser.ts:4-35). */
module PackageMergeModel {
  import opened Common
  import opened FileNames

  datatype Package = Package(name: string, links: seq<string>, fileNames: Option<seq<string>>)

  /** One usable link of a package with the file name given for it, "" if none. */
  datatype Row = Row(link: string, file: string)

  /** The distinct elements in the order of their first occurrences. */
  function Dedup(s: seq<string>): seq<string> {
    if s == [] then []
    else
      var d := Dedup(s[..|s| - 1]);
      if s[|s| - 1] in d then d else d + [s[|s| - 1]]
  }

  function NameOf(p: Package, infer: seq<string> -> string): string {
    Sanitize(if p.name != "" then p.name else infer(p.links))
  }

  function FileAt(p: Package, k: nat): string {
    if p.fileNames.Some? && k < |p.fileNames.value| then Trim(p.fileNames.value[k]) else ""
  }

  function CleanFile(raw: string): string { if raw != "" then Sanitize(raw) else "" }

  /** The rows of the first k links; blank links yield none. */
  function PackageRows(p: Package, k: nat): seq<Row>
    requires k <= |p.links|
  {
    if k == 0 then []
    else
      var link := Trim(p.links[k - 1]);
      PackageRows(p, k - 1) + (if link == "" then [] else [Row(link, CleanFile(FileAt(p, k - 1)))])
  }

  /** All rows given under a name, in input order. */
  function RowsOf(ps: seq<Package>, infer: seq<string> -> string, name: string): seq<Row> {
    if ps == [] then []
    else
      var p := ps[|ps| - 1];
      RowsOf(ps[..|ps| - 1], infer, name) + (if NameOf(p, infer) == name then PackageRows(p, |p.links|) else [])
  }

  function Links(rows: seq<Row>): seq<string> { seq(|rows|, i requires 0 <= i < |rows| => rows[i].link) }

  function Names(ps: seq<Package>, infer: seq<string> -> string): seq<string> {
    seq(|ps|, i requires 0 <= i < |ps| => NameOf(ps[i], infer))
  }

  /** The first file name given for a link. */
  function FirstFile(rows: seq<Row>, link: string): string {
    if rows == [] then ""
    else
      var f := FirstFile(rows[..|rows| - 1], link);
      if f != "" then f else if rows[|rows| - 1].link == link then rows[|rows| - 1].file else ""
  }

  function Files(rows: seq<Row>, links: seq<string>): seq<string> {
    seq(|links|, i requires 0 <= i < |links| => FirstFile(rows, links[i]))
  }

  function Project(name: string, links: seq<string>, files: seq<string>): Package {
    Package(name, links, if exists i :: 0 <= i < |files| && files[i] != "" then Some(files) else None)
  }

  function Grouped(name: string, rows: seq<Row>): Package {
    Project(name, Dedup(Links(rows)), Files(rows, Dedup(Links(rows))))
  }

  function Merge(ps: seq<Package>, infer: seq<string> -> string): seq<Package> {
    var names := Dedup(Names(ps, infer));
    seq(|names|, i requires 0 <= i < |names| => Grouped(names[i], RowsOf(ps, infer, names[i])))
  }

  // ---------------------------------------------------------------- first occurrences

  lemma {:induction false} DedupMembers(s: seq<string>)
    ensures forall x :: x in Dedup(s) <==> x in s
    ensures forall i, j :: 0 <= i < j < |Dedup(s)| ==> Dedup(s)[i] != Dedup(s)[j]
  {
    if s != [] {
      DedupMembers(s[..|s| - 1]);
      assert s == s[..|s| - 1] + [s[|s| - 1]];
    }
  }

  lemma DedupSnoc(s: seq<string>, x: string)
    ensures Dedup(s + [x]) == if x in Dedup(s) then Dedup(s) else Dedup(s) + [x]
  {
    assert (s + [x])[..|s|] == s;
  }

  lemma {:induction false} DedupDistinct(s: seq<string>)
    requires forall i, j :: 0 <= i < j < |s| ==> s[i] != s[j]
    ensures Dedup(s) == s
  {
    if s != [] {
      DedupDistinct(s[..|s| - 1]);
      assert s == s[..|s| - 1] + [s[|s| - 1]];
    }
  }

  /** Taking first occurrences early, on either side, changes nothing. */
  lemma {:induction false} DedupConcat(a: seq<string>, b: seq<string>)
    ensures Dedup(Dedup(a) + Dedup(b)) == Dedup(a + b)
  {
    if b == [] {
      DedupMembers(a);
      DedupDistinct(Dedup(a));
      assert Dedup(a) + Dedup(b) == Dedup(a) && a + b == a;
    } else {
      var t, x := b[..|b| - 1], b[|b| - 1];
      DedupConcat(a, t);
      DedupStep(a, t, x);
      assert b == t + [x];
    }
  }

  lemma DedupStep(a: seq<string>, t: seq<string>, x: string)
    requires Dedup(Dedup(a) + Dedup(t)) == Dedup(a + t)
    ensures Dedup(Dedup(a) + Dedup(t + [x])) == Dedup(a + (t + [x]))
  {
    hide Dedup;
    assert a + (t + [x]) == (a + t) + [x];
    DedupSnoc(a + t, x);
    DedupSnoc(t, x);
    DedupMembers(a + t);
    DedupMembers(t);
    if x !in Dedup(t) {
      assert Dedup(a) + (Dedup(t) + [x]) == (Dedup(a) + Dedup(t)) + [x];
      DedupSnoc(Dedup(a) + Dedup(t), x);
    } else {
      assert x in a + t;
    }
  }

  function FirstIndex(s: seq<string>, x: string): (k: nat)
    ensures k <= |s| && (x in s ==> k < |s|)
    ensures (k < |s| ==> s[k] == x) && forall i :: 0 <= i < k ==> s[i] != x
  {
    if s == [] || s[0] == x then 0 else 1 + FirstIndex(s[1..], x)
  }

  /** The distinct elements stand in the order in which they first occur. */
  lemma {:induction false} DedupKeepsOrder(s: seq<string>, i: nat, j: nat)
    requires i < j < |Dedup(s)|
    ensures FirstIndex(s, Dedup(s)[i]) < FirstIndex(s, Dedup(s)[j])
  {
    var t := s[..|s| - 1];
    assert s == t + [s[|s| - 1]];
    DedupMembers(t);
    FirstIndexOfPrefix(t, s, Dedup(s)[i]);
    if j < |Dedup(t)| {
      DedupKeepsOrder(t, i, j);
      FirstIndexOfPrefix(t, s, Dedup(s)[j]);
    }
  }

  lemma FirstIndexOfPrefix(t: seq<string>, s: seq<string>, x: string)
    requires |t| <= |s| && t == s[..|t|] && x in t
    ensures FirstIndex(s, x) == FirstIndex(t, x)
  {
    var k := FirstIndex(t, x);
    assert s[k] == t[k] && forall i :: 0 <= i < k ==> s[i] == t[i];
    assert x in s;
  }

  // ---------------------------------------------------------------- rows

  lemma {:induction false} FirstFileConcat(a: seq<Row>, b: seq<Row>, link: string)
    ensures FirstFile(a + b, link) == if FirstFile(a, link) != "" then FirstFile(a, link) else FirstFile(b, link)
  {
    if b == [] {
      assert a + b == a;
    } else {
      FirstFileConcat(a, b[..|b| - 1], link);
      assert (a + b)[..|a + b| - 1] == a + b[..|b| - 1];
    }
  }

  /** The value is the file of the first row for the link that has one. */
  lemma {:induction false} FirstFileIsFirst(rows: seq<Row>, link: string)
    ensures var f := FirstFile(rows, link);
            if f == "" then forall i :: 0 <= i < |rows| && rows[i].link == link ==> rows[i].file == ""
            else exists i :: 0 <= i < |rows| && rows[i] == Row(link, f)
                             && forall j :: 0 <= j < i && rows[j].link == link ==> rows[j].file == ""
  {
    if rows != [] {
      var n := |rows| - 1;
      var init := rows[..n];
      FirstFileIsFirst(init, link);
      assert forall i :: 0 <= i < n ==> rows[i] == init[i];
      if FirstFile(init, link) != "" {
        var i :| 0 <= i < n && init[i] == Row(link, FirstFile(init, link))
                 && forall j :: 0 <= j < i && init[j].link == link ==> init[j].file == "";
        assert rows[i] == Row(link, FirstFile(rows, link));
      } else if FirstFile(rows, link) != "" {
        assert rows[n] == Row(link, FirstFile(rows, link));
      }
    }
  }

  /** The rows of a merged package: one per link, with the link's first file name. */
  function MergedRows(rows: seq<Row>): seq<Row> {
    var links := Dedup(Links(rows));
    seq(|links|, i requires 0 <= i < |links| => Row(links[i], FirstFile(rows, links[i])))
  }

  lemma MergedLinks(rows: seq<Row>)
    ensures Links(MergedRows(rows)) == Dedup(Links(rows))
  {}

  lemma {:induction false} MergedFile(rows: seq<Row>, merged: seq<Row>, link: string, n: nat)
    requires n <= |merged|
    requires forall i :: 0 <= i < |merged| ==> merged[i].file == FirstFile(rows, merged[i].link)
    ensures FirstFile(merged[..n], link)
            == if exists i :: 0 <= i < n && merged[i].link == link then FirstFile(rows, link) else ""
  {
    if n > 0 {
      MergedFile(rows, merged, link, n - 1);
      assert merged[..n][..n - 1] == merged[..n - 1];
    }
  }

  lemma MergedFiles(rows: seq<Row>, link: string)
    ensures FirstFile(MergedRows(rows), link) == FirstFile(rows, link)
  {
    var merged := MergedRows(rows);
    MergedFile(rows, merged, link, |merged|);
    assert merged[..|merged|] == merged;
    FirstFileIsFirst(rows, link);
    DedupMembers(Links(rows));
    if FirstFile(rows, link) != "" {
      var i :| 0 <= i < |rows| && rows[i] == Row(link, FirstFile(rows, link));
      assert Links(rows)[i] == link;
      assert link in Dedup(Links(rows));
      var k :| 0 <= k < |merged| && Dedup(Links(rows))[k] == link;
      assert merged[k].link == link;
    }
  }

  /** A package built from merged rows on each side equals the one built from all rows. */
  lemma GroupedConcat(name: string, a: seq<Row>, b: seq<Row>)
    ensures Grouped(name, MergedRows(a) + MergedRows(b)) == Grouped(name, a + b)
  {
    var m := MergedRows(a) + MergedRows(b);
    MergedLinks(a);
    MergedLinks(b);
    assert Links(m) == Dedup(Links(a)) + Dedup(Links(b));
    assert Links(a + b) == Links(a) + Links(b);
    DedupConcat(Links(a), Links(b));
    var links := Dedup(Links(a + b));
    forall i | 0 <= i < |links| ensures Files(m, links)[i] == Files(a + b, links)[i] {
      FirstFileConcat(MergedRows(a), MergedRows(b), links[i]);
      FirstFileConcat(a, b, links[i]);
      MergedFiles(a, links[i]);
      MergedFiles(b, links[i]);
    }
    assert Files(m, links) == Files(a + b, links);
  }

  // ---------------------------------------------------------------- merged packages as input

  /** Rows as merging produces them: trimmed links, sanitized file names. */
  ghost predicate Clean(row: Row) {
    && row.link != "" && Trim(row.link) == row.link
    && (row.file == "" || (Trim(row.file) == row.file && Sanitize(row.file) == row.file))
  }

  ghost predicate AllClean(rows: seq<Row>) { forall i :: 0 <= i < |rows| ==> Clean(rows[i]) }

  lemma {:induction false} PackageRowsAreClean(p: Package, k: nat)
    requires k <= |p.links|
    ensures AllClean(PackageRows(p, k))
  {
    hide Trim, Sanitize;
    if k > 0 {
      PackageRowsAreClean(p, k - 1);
      TrimIsIdempotent(p.links[k - 1]);
      SanitizeIsIdempotent(FileAt(p, k - 1));
    }
  }

  lemma {:induction false} RowsAreClean(ps: seq<Package>, infer: seq<string> -> string, name: string)
    ensures AllClean(RowsOf(ps, infer, name))
  {
    hide Clean, PackageRows;
    if ps != [] {
      RowsAreClean(ps[..|ps| - 1], infer, name);
      PackageRowsAreClean(ps[|ps| - 1], |ps[|ps| - 1].links|);
    }
  }

  lemma {:induction false} RowsOfGroup(name: string, merged: seq<Row>, p: Package, k: nat)
    requires AllClean(merged) && k <= |merged|
    requires p == Project(name, Links(merged), seq(|merged|, i requires 0 <= i < |merged| => merged[i].file))
    ensures PackageRows(p, k) == merged[..k]
  {
    hide Trim, Sanitize;
    if k > 0 {
      RowsOfGroup(name, merged, p, k - 1);
      assert Clean(merged[k - 1]);
      var files := seq(|merged|, i requires 0 <= i < |merged| => merged[i].file);
      assert files[k - 1] == merged[k - 1].file;
      TrimOfNothing();
      assert FileAt(p, k - 1) == merged[k - 1].file;
      assert merged[..k] == merged[..k - 1] + [merged[k - 1]];
    }
  }

  lemma TrimOfNothing()
    ensures Trim("") == ""
  {}

  lemma MergedRowsAreClean(rows: seq<Row>)
    requires AllClean(rows)
    ensures AllClean(MergedRows(rows))
  {
    hide Trim, Sanitize;
    var merged := MergedRows(rows);
    DedupMembers(Links(rows));
    forall k | 0 <= k < |merged| ensures Clean(merged[k]) {
      var link := merged[k].link;
      assert link in Links(rows);
      var i :| 0 <= i < |rows| && Links(rows)[i] == link;
      assert Clean(rows[i]);
      FirstFileIsFirst(rows, link);
    }
  }

  lemma GroupedRows(name: string, rows: seq<Row>)
    requires AllClean(rows)
    ensures PackageRows(Grouped(name, rows), |Grouped(name, rows).links|) == MergedRows(rows)
  {
    var merged := MergedRows(rows);
    var links := Dedup(Links(rows));
    MergedRowsAreClean(rows);
    MergedLinks(rows);
    assert Files(rows, links) == seq(|merged|, i requires 0 <= i < |merged| => merged[i].file);
    hide AllClean, PackageRows, MergedRows, Dedup, Files;
    RowsOfGroup(name, merged, Grouped(name, rows), |merged|);
    assert merged[..|merged|] == merged;
  }

  lemma {:induction false} NoRows(ps: seq<Package>, infer: seq<string> -> string, name: string)
    requires name !in Names(ps, infer)
    ensures RowsOf(ps, infer, name) == []
  {
    hide NameOf, PackageRows;
    if ps != [] {
      assert Names(ps, infer)[|ps| - 1] == NameOf(ps[|ps| - 1], infer);
      assert Names(ps, infer) == Names(ps[..|ps| - 1], infer) + [NameOf(ps[|ps| - 1], infer)];
      NoRows(ps[..|ps| - 1], infer, name);
    }
  }

  lemma {:induction false} RowsOfConcat(a: seq<Package>, b: seq<Package>, infer: seq<string> -> string, name: string)
    ensures RowsOf(a + b, infer, name) == RowsOf(a, infer, name) + RowsOf(b, infer, name)
  {
    hide NameOf, PackageRows;
    if b == [] {
      assert a + b == a;
    } else {
      RowsOfConcat(a, b[..|b| - 1], infer, name);
      assert (a + b)[..|a + b| - 1] == a + b[..|b| - 1];
    }
  }

  /** With distinct names, the rows of a name are those of its one package. */
  lemma {:induction false} RowsOfOne(ps: seq<Package>, infer: seq<string> -> string, k: nat)
    requires k < |ps| && forall i, j :: 0 <= i < j < |ps| ==> NameOf(ps[i], infer) != NameOf(ps[j], infer)
    ensures RowsOf(ps, infer, NameOf(ps[k], infer)) == PackageRows(ps[k], |ps[k].links|)
  {
    hide NameOf, PackageRows;
    var init := ps[..|ps| - 1];
    if k == |ps| - 1 {
      assert NameOf(ps[k], infer) !in Names(init, infer);
      NoRows(init, infer, NameOf(ps[k], infer));
    } else {
      RowsOfOne(init, infer, k);
    }
  }

  lemma MergedNames(ps: seq<Package>, infer: seq<string> -> string)
    ensures Names(Merge(ps, infer), infer) == Dedup(Names(ps, infer))
  {
    var names := Dedup(Names(ps, infer));
    DedupMembers(Names(ps, infer));
    hide Sanitize, RowsOf, Dedup;
    forall i | 0 <= i < |names| ensures NameOf(Merge(ps, infer)[i], infer) == names[i] {
      assert names[i] in Names(ps, infer);
      var k :| 0 <= k < |ps| && Names(ps, infer)[k] == names[i];
      SanitizeIsIdempotent(if ps[k].name != "" then ps[k].name else infer(ps[k].links));
    }
  }

  /** Read back, a merged list has under every name the merged rows of the list it was made from. */
  lemma RowsOfMerged(ps: seq<Package>, infer: seq<string> -> string, name: string)
    ensures RowsOf(Merge(ps, infer), infer, name) == MergedRows(RowsOf(ps, infer, name))
  {
    var names := Dedup(Names(ps, infer));
    var m := Merge(ps, infer);
    MergedNames(ps, infer);
    DedupMembers(Names(ps, infer));
    hide PackageRows, Dedup, RowsOf, MergedRows;
    if name in names {
      var k :| 0 <= k < |names| && names[k] == name;
      RowsOfListed(ps, infer, m, k);
    } else {
      NoRows(ps, infer, name);
      NoRows(m, infer, name);
      MergedNothing();
    }
  }

  lemma MergedNothing()
    ensures MergedRows([]) == []
  {}

  lemma RowsOfListed(ps: seq<Package>, infer: seq<string> -> string, m: seq<Package>, k: nat)
    requires m == Merge(ps, infer) && Names(m, infer) == Dedup(Names(ps, infer)) && k < |m|
    requires forall i, j :: 0 <= i < j < |m| ==> Names(m, infer)[i] != Names(m, infer)[j]
    ensures RowsOf(m, infer, Names(m, infer)[k]) == MergedRows(RowsOf(ps, infer, Names(m, infer)[k]))
  {
    hide NameOf, PackageRows, Dedup, RowsOf, AllClean, Grouped, MergedRows, Names, Merge, Sanitize;
    NamesAre(m, infer);
    MergedAt(ps, infer, m, k);
    forall i, j | 0 <= i < j < |m| ensures NameOf(m[i], infer) != NameOf(m[j], infer) {
      assert Names(m, infer)[i] != Names(m, infer)[j];
    }
    RowsOfOne(m, infer, k);
    RowsAreClean(ps, infer, Names(m, infer)[k]);
    GroupedRows(Names(m, infer)[k], RowsOf(ps, infer, Names(m, infer)[k]));
  }

  lemma MergedAt(ps: seq<Package>, infer: seq<string> -> string, m: seq<Package>, k: nat)
    requires m == Merge(ps, infer) && Names(m, infer) == Dedup(Names(ps, infer)) && k < |m| == |Names(m, infer)|
    ensures m[k] == Grouped(Names(m, infer)[k], RowsOf(ps, infer, Names(m, infer)[k]))
  {
    hide NameOf, PackageRows, Dedup, RowsOf, Grouped, Names;
  }

  lemma NamesAre(ps: seq<Package>, infer: seq<string> -> string)
    ensures |Names(ps, infer)| == |ps| && forall i :: 0 <= i < |ps| ==> Names(ps, infer)[i] == NameOf(ps[i], infer)
  {
    hide NameOf;
  }

  // ---------------------------------------------------------------- the laws of merging

  /** Merging is compositional: parts may be merged first. */
  lemma MergeIsCompositional(a: seq<Package>, b: seq<Package>, infer: seq<string> -> string)
    ensures Merge(Merge(a, infer) + Merge(b, infer), infer) == Merge(a + b, infer)
  {
    var m := Merge(a, infer) + Merge(b, infer);
    hide Merge, Dedup, NameOf, RowsOf, Grouped, MergedRows;
    MergedNames(a, infer);
    MergedNames(b, infer);
    assert Names(m, infer) == Dedup(Names(a, infer)) + Dedup(Names(b, infer));
    assert Names(a + b, infer) == Names(a, infer) + Names(b, infer);
    DedupConcat(Names(a, infer), Names(b, infer));
    forall name ensures Grouped(name, RowsOf(m, infer, name)) == Grouped(name, RowsOf(a + b, infer, name)) {
      RowsOfConcat(Merge(a, infer), Merge(b, infer), infer, name);
      RowsOfConcat(a, b, infer, name);
      RowsOfMerged(a, infer, name);
      RowsOfMerged(b, infer, name);
      GroupedConcat(name, RowsOf(a, infer, name), RowsOf(b, infer, name));
    }
    MergeByName(m, a + b, infer);
  }

  lemma MergeByName(p: seq<Package>, q: seq<Package>, infer: seq<string> -> string)
    requires Dedup(Names(p, infer)) == Dedup(Names(q, infer))
    requires forall name :: Grouped(name, RowsOf(p, infer, name)) == Grouped(name, RowsOf(q, infer, name))
    ensures Merge(p, infer) == Merge(q, infer)
  {
    hide Dedup, Names, RowsOf, Grouped;
  }

  /** Merging twice is merging once. */
  lemma MergeIsIdempotent(ps: seq<Package>, infer: seq<string> -> string)
    ensures Merge(Merge(ps, infer), infer) == Merge(ps, infer)
  {
    MergeIsCompositional(ps, [], infer);
    assert ps + [] == ps;
    assert Merge([], infer) == [];
    hide Merge;
    assert Merge(ps, infer) + [] == Merge(ps, infer);
  }

  /** Names and links come out once each; a link is listed under a name exactly when some package of that name has it,
      with the first file name given there; file names are listed only if some link has one. */
  lemma MergeContents(ps: seq<Package>, infer: seq<string> -> string, i: nat)
    requires i < |Merge(ps, infer)|
    ensures var m := Merge(ps, infer)[i];
            var rows := RowsOf(ps, infer, m.name);
            && (forall j :: 0 <= j < i ==> Merge(ps, infer)[j].name != m.name)
            && (exists k :: 0 <= k < |ps| && NameOf(ps[k], infer) == m.name)
            && (forall link :: link in m.links <==> exists r :: r in rows && r.link == link)
            && (forall k, l :: 0 <= k < l < |m.links| ==> m.links[k] != m.links[l])
            && (forall k :: 0 <= k < |m.links| ==>
                  FirstFile(rows, m.links[k])
                  == if m.fileNames.Some? && k < |m.fileNames.value| then m.fileNames.value[k] else "")
            && (m.fileNames.Some? <==> exists k :: 0 <= k < |m.links| && FirstFile(rows, m.links[k]) != "")
            && (m.fileNames.Some? ==> |m.fileNames.value| == |m.links|)
  {
    var names := Dedup(Names(ps, infer));
    DedupMembers(Names(ps, infer));
    hide NameOf, RowsOf, Dedup, FirstFile;
    assert names[i] in Names(ps, infer);
    var rows := RowsOf(ps, infer, names[i]);
    DedupMembers(Links(rows));
    var m := Merge(ps, infer)[i];
    forall link ensures link in m.links <==> exists r :: r in rows && r.link == link {
      if r :| r in rows && r.link == link {
        var k :| 0 <= k < |rows| && rows[k] == r;
        assert Links(rows)[k] == link;
      }
      if link in m.links {
        assert link in Links(rows);
        var k :| 0 <= k < |rows| && Links(rows)[k] == link;
        assert rows[k] in rows;
      }
    }
    var files := Files(rows, m.links);
    assert m == Project(names[i], m.links, files);
    assert forall k :: 0 <= k < |m.links| ==> files[k] == FirstFile(rows, m.links[k]);
    assert (exists k :: 0 <= k < |files| && files[k] != "")
           <==> exists k :: 0 <= k < |m.links| && FirstFile(rows, m.links[k]) != "";
  }
}

/** The merge as the source runs it: a map of groups filled by two loops, then projected. */
module PackageMerge {
  import opened Common
  import opened FileNames
  import opened M = PackageMergeModel

  datatype Group = Group(links: seq<string>, linkSet: set<string>, fileNameByLink: map<string, string>)

  const EmptyGroup: Group := Group([], {}, map[])

  /** A group holds the distinct links and first file names of its rows. */
  ghost predicate Holds(g: Group, rows: seq<Row>) {
    && g.links == Dedup(Links(rows))
    && (forall x :: x in g.linkSet <==> x in g.links)
    && (forall x :: x in g.fileNameByLink <==> FirstFile(rows, x) != "")
    && (forall x :: x in g.fileNameByLink ==> g.fileNameByLink[x] == FirstFile(rows, x))
  }

  lemma EmptyHolds()
    ensures Holds(EmptyGroup, [])
  {}

  lemma LinksSnoc(rows: seq<Row>, row: Row)
    ensures Links(rows + [row]) == Links(rows) + [row.link]
  {}

  lemma FirstFileSnoc(rows: seq<Row>, row: Row, x: string)
    ensures FirstFile(rows + [row], x)
            == if FirstFile(rows, x) != "" then FirstFile(rows, x) else if row.link == x then row.file else ""
  {
    assert (rows + [row])[..|rows|] == rows;
  }

  /** The body of the inner loop, for a usable link. */
  function AddRow(g: Group, row: Row): Group {
    var seen :=
      if row.link in g.linkSet then g else g.(linkSet := g.linkSet + {row.link}, links := g.links + [row.link]);
    if row.file != "" && row.link !in seen.fileNameByLink
    then seen.(fileNameByLink := seen.fileNameByLink[row.link := row.file])
    else seen
  }

  lemma AddRowHolds(g: Group, rows: seq<Row>, row: Row)
    requires Holds(g, rows)
    ensures Holds(AddRow(g, row), rows + [row])
  {
    LinksSnoc(rows, row);
    DedupSnoc(Links(rows), row.link);
    forall x ensures FirstFile(rows + [row], x)
                     == if FirstFile(rows, x) != "" then FirstFile(rows, x) else if row.link == x then row.file else ""
    {
      FirstFileSnoc(rows, row, x);
    }
    hide Dedup, Links, FirstFile;
  }

  method AddPackage(p: Package, g: Group, ghost rows: seq<Row>) returns (current: Group)
    requires Holds(g, rows)
    ensures Holds(current, rows + PackageRows(p, |p.links|))
  {
    hide Holds, Trim, CleanFile;
    current := g;
    assert rows + [] == rows;
    for index := 0 to |p.links|
      invariant Holds(current, rows + PackageRows(p, index))
    {
      var link := Trim(p.links[index]);
      if link == "" {
        assert PackageRows(p, index + 1) == PackageRows(p, index);
        continue;
      }
      ghost var before := current;
      var row := Row(link, CleanFile(FileAt(p, index)));
      AddRowHolds(before, rows + PackageRows(p, index), row);
      assert rows + PackageRows(p, index + 1) == rows + PackageRows(p, index) + [row];
      if link !in current.linkSet {
        current := current.(linkSet := current.linkSet + {link}, links := current.links + [link]);
      }
      if row.file != "" && link !in current.fileNameByLink {
        current := current.(fileNameByLink := current.fileNameByLink[link := row.file]);
      }
      assert current == AddRow(before, row);
    }
  }

  /** The groups after the first n packages, with their insertion order. */
  ghost predicate GroupsOf(grouped: map<string, Group>, order: seq<string>, ps: seq<Package>,
                           infer: seq<string> -> string)
  {
    && order == Dedup(Names(ps, infer))
    && (forall x :: x in grouped <==> x in order)
    && (forall x :: x in grouped ==> Holds(grouped[x], RowsOf(ps, infer, x)))
  }

  lemma GroupsSnoc(grouped: map<string, Group>, order: seq<string>, ps: seq<Package>, p: Package,
                   infer: seq<string> -> string, current: Group)
    requires GroupsOf(grouped, order, ps, infer)
    requires var name := NameOf(p, infer);
             Holds(current, RowsOf(ps, infer, name) + PackageRows(p, |p.links|))
    ensures var name := NameOf(p, infer);
            GroupsOf(grouped[name := current], if name in grouped then order else order + [name], ps + [p], infer)
  {
    hide Holds, NameOf, PackageRows, Dedup;
    var name := NameOf(p, infer);
    assert (ps + [p])[..|ps|] == ps;
    assert Names(ps + [p], infer) == Names(ps, infer) + [name];
    DedupSnoc(Names(ps, infer), name);
    forall x | x in grouped && x != name ensures RowsOf(ps + [p], infer, x) == RowsOf(ps, infer, x) {}
  }

  lemma RowsOfUngrouped(ps: seq<Package>, infer: seq<string> -> string, order: seq<string>, name: string)
    requires order == Dedup(Names(ps, infer)) && name !in order
    ensures RowsOf(ps, infer, name) == []
  {
    hide Dedup, Names, RowsOf;
    DedupMembers(Names(ps, infer));
    NoRows(ps, infer, name);
  }

  method ProjectGroup(name: string, g: Group, ghost rows: seq<Row>) returns (p: Package)
    requires Holds(g, rows)
    ensures p == Grouped(name, rows)
  {
    hide Dedup, Links, FirstFile;
    var files: seq<string> := [];
    var given := false;
    for i := 0 to |g.links|
      invariant |files| == i && forall k :: 0 <= k < i ==> files[k] == FirstFile(rows, g.links[k])
      invariant given <==> exists k :: 0 <= k < i && files[k] != ""
    {
      var file := if g.links[i] in g.fileNameByLink then g.fileNameByLink[g.links[i]] else "";
      files := files + [file];
      given := given || file != "";
    }
    assert files == Files(rows, g.links);
    p := Package(name, g.links, if given then Some(files) else None);
  }

  method MergePackageInputs(ps: seq<Package>, infer: seq<string> -> string) returns (merged: seq<Package>)
    ensures merged == Merge(ps, infer)
  {
    hide Holds, Dedup, NameOf, RowsOf, PackageRows, Grouped;
    var grouped: map<string, Group> := map[];
    var order: seq<string> := [];
    assert GroupsOf(grouped, order, ps[..0], infer) by { NoGroups(infer); assert ps[..0] == []; }
    for n := 0 to |ps|
      invariant GroupsOf(grouped, order, ps[..n], infer)
    {
      var name := NameOf(ps[n], infer);
      var current := EmptyGroup;
      if name in grouped {
        current := grouped[name];
      } else {
        EmptyHolds();
        RowsOfUngrouped(ps[..n], infer, order, name);
      }
      current := AddPackage(ps[n], current, RowsOf(ps[..n], infer, name));
      GroupsSnoc(grouped, order, ps[..n], ps[n], infer, current);
      assert ps[..n] + [ps[n]] == ps[..n + 1];
      if name !in grouped { order := order + [name]; }
      grouped := grouped[name := current];
    }
    assert ps[..|ps|] == ps;
    merged := [];
    for i := 0 to |order|
      invariant |merged| == i && forall k :: 0 <= k < i ==> merged[k] == Grouped(order[k], RowsOf(ps, infer, order[k]))
    {
      var p := ProjectGroup(order[i], grouped[order[i]], RowsOf(ps, infer, order[i]));
      merged := merged + [p];
    }
    assert merged == Merge(ps, infer);
  }

  lemma NoGroups(infer: seq<string> -> string)
    ensures GroupsOf(map[], [], [], infer)
  {}
}
