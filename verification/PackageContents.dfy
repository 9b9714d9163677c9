/** What a merged list holds, in terms of the lists that were merged (src/main/link-parser.ts:4-35). */
module PackageContents {
  import opened Common
  import opened FileNames
  import opened PackageMergeModel

  /** A package goes by its own name or, without one, by the name inferred from its links; either is sanitized. */
  predicate GoesBy(p: Package, infer: seq<string> -> string, name: string) {
    if p.name == "" then name == Sanitize(infer(p.links)) else name == Sanitize(p.name)
  }

  /** The j-th entry of a package gives this link, trimmed and not blank, with this file name, trimmed and sanitized, or
      none. */
  predicate Gives(p: Package, j: nat, link: string, file: string) {
    && j < |p.links| && link != "" && Trim(p.links[j]) == link
    && (if p.fileNames.None? || j >= |p.fileNames.value| || Trim(p.fileNames.value[j]) == "" then file == ""
        else file == Sanitize(Trim(p.fileNames.value[j])))
  }

  ghost predicate HasEntry(p: Package, link: string, file: string) {
    exists j :: 0 <= j < |p.links| && Gives(p, j, link, file)
  }

  ghost predicate HasRow(rows: seq<Row>, link: string, file: string) {
    exists r :: 0 <= r < |rows| && rows[r] == Row(link, file)
  }

  lemma HasRowConcat(a: seq<Row>, b: seq<Row>, link: string, file: string)
    ensures HasRow(a + b, link, file) <==> HasRow(a, link, file) || HasRow(b, link, file)
  {
    var c := a + b;
    assert forall r :: 0 <= r < |a| ==> c[r] == a[r];
    assert forall r :: 0 <= r < |b| ==> c[|a| + r] == b[r];
  }

  lemma {:induction false} RowsOfPackage(p: Package, k: nat, link: string, file: string)
    requires k <= |p.links|
    ensures HasRow(PackageRows(p, k), link, file) <==> exists j :: 0 <= j < k && Gives(p, j, link, file)
  {
    hide Trim, Sanitize;
    if k > 0 {
      RowsOfPackage(p, k - 1, link, file);
      var before, all := PackageRows(p, k - 1), PackageRows(p, k);
      assert forall r :: 0 <= r < |before| ==> all[r] == before[r];
      if HasRow(before, link, file) { assert HasRow(all, link, file); }
      if Gives(p, k - 1, link, file) { assert all[|all| - 1] == Row(link, file); }
    }
  }

  /** Some package that goes by the name has such an entry. */
  ghost predicate Given(ps: seq<Package>, infer: seq<string> -> string, name: string, link: string, file: string) {
    exists k :: 0 <= k < |ps| && GoesBy(ps[k], infer, name) && HasEntry(ps[k], link, file)
  }

  lemma GivenLast(ps: seq<Package>, infer: seq<string> -> string, name: string, link: string, file: string)
    requires ps != []
    ensures var n := |ps| - 1;
            Given(ps, infer, name, link, file)
            <==> Given(ps[..n], infer, name, link, file)
                 || (GoesBy(ps[n], infer, name) && HasEntry(ps[n], link, file))
  {
    hide HasEntry, GoesBy;
    var n := |ps| - 1;
    assert forall k :: 0 <= k < n ==> ps[..n][k] == ps[k];
  }

  lemma NameIsGoneBy(p: Package, infer: seq<string> -> string, name: string)
    ensures GoesBy(p, infer, name) <==> NameOf(p, infer) == name
  {
    hide Sanitize;
  }

  lemma {:induction false} RowsOfName(ps: seq<Package>, infer: seq<string> -> string, name: string, link: string,
                                      file: string)
    ensures HasRow(RowsOf(ps, infer, name), link, file) <==> Given(ps, infer, name, link, file)
  {
    hide Gives, GoesBy, Given, NameOf, PackageRows, HasRow;
    if ps != [] {
      var n := |ps| - 1;
      RowsOfName(ps[..n], infer, name, link, file);
      RowsOfPackage(ps[n], |ps[n].links|, link, file);
      GivenLast(ps, infer, name, link, file);
      NameIsGoneBy(ps[n], infer, name);
      HasRowConcat(RowsOf(ps[..n], infer, name), PackageRows(ps[n], |ps[n].links|), link, file);
      assert RowsOf(ps[..n], infer, name) + [] == RowsOf(ps[..n], infer, name);
    } else {
      NothingGiven(infer, name, link, file);
    }
  }

  lemma NothingGiven(infer: seq<string> -> string, name: string, link: string, file: string)
    ensures !HasRow([], link, file) && !Given([], infer, name, link, file)
  {}

  /** A merged list has a package of a name, once, exactly if some package goes by it; the package has a link, once,
      exactly if an entry of such a package gives it. */
  lemma MergedExactly(ps: seq<Package>, infer: seq<string> -> string, name: string, link: string)
    ensures (exists i :: 0 <= i < |Merge(ps, infer)| && Merge(ps, infer)[i].name == name)
            <==> exists k :: 0 <= k < |ps| && GoesBy(ps[k], infer, name)
    ensures (exists i :: 0 <= i < |Merge(ps, infer)| && Merge(ps, infer)[i].name == name
                         && link in Merge(ps, infer)[i].links)
            <==> exists file :: Given(ps, infer, name, link, file)
  {
    var merged := Merge(ps, infer);
    NamesOfMerged(ps, infer, name);
    hide Merge, RowsOf, Sanitize, FirstFile, Gives;
    if i :| 0 <= i < |merged| && merged[i].name == name && link in merged[i].links {
      MergeContents(ps, infer, i);
      var r :| r in RowsOf(ps, infer, name) && r.link == link;
      assert HasRow(RowsOf(ps, infer, name), link, r.file);
      RowsOfName(ps, infer, name, link, r.file);
    }
    if file :| Given(ps, infer, name, link, file) {
      RowsOfName(ps, infer, name, link, file);
      var i :| 0 <= i < |merged| && merged[i].name == name;
      MergeContents(ps, infer, i);
      assert Row(link, file) in RowsOf(ps, infer, name);
    }
  }

  lemma NamesOfMerged(ps: seq<Package>, infer: seq<string> -> string, name: string)
    ensures (exists i :: 0 <= i < |Merge(ps, infer)| && Merge(ps, infer)[i].name == name)
            <==> exists k :: 0 <= k < |ps| && GoesBy(ps[k], infer, name)
  {
    var names := Dedup(Names(ps, infer));
    DedupMembers(Names(ps, infer));
    hide Sanitize, RowsOf, Dedup;
    assert forall i :: 0 <= i < |names| ==> Merge(ps, infer)[i].name == names[i];
    if k :| 0 <= k < |ps| && GoesBy(ps[k], infer, name) {
      assert Names(ps, infer)[k] == name;
      assert name in names;
    }
    if i :| 0 <= i < |names| && names[i] == name {
      assert name in Names(ps, infer);
      var k :| 0 <= k < |ps| && Names(ps, infer)[k] == name;
      assert GoesBy(ps[k], infer, name);
    }
  }

  /** The file name of a link is one that an entry gives for it under that name, and it is missing only if none does. */
  lemma MergedFileIsGiven(ps: seq<Package>, infer: seq<string> -> string, name: string, link: string)
    ensures var f := FirstFile(RowsOf(ps, infer, name), link);
            if f == "" then forall file :: file != "" ==> !Given(ps, infer, name, link, file)
            else Given(ps, infer, name, link, f)
  {
    var rows := RowsOf(ps, infer, name);
    FirstFileIsFirst(rows, link);
    hide FirstFile, RowsOf, Given;
    var f := FirstFile(rows, link);
    if f == "" {
      forall file | file != "" ensures !Given(ps, infer, name, link, file) { RowsOfName(ps, infer, name, link, file); }
    } else {
      RowsOfName(ps, infer, name, link, f);
    }
  }
}
