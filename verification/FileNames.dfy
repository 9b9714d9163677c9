/** `String.prototype.trim` and `sanitizeFilename` (src/main/utils.ts:12-16, 94-117). */
module FileNames {
  import opened PublicationNames

  /** The characters of the regular expression class \s. */
  predicate IsSpace(c: char) {
    var n := c as int;
    9 <= n <= 13 || n == 32 || n == 0xA0 || n == 0x1680 || 0x2000 <= n <= 0x200A || n == 0x2028 || n == 0x2029
    || n == 0x202F || n == 0x205F || n == 0x3000 || n == 0xFEFF
  }

  predicate IsEdge(c: char) { c == '.' || IsSpace(c) }

  function DropLeading(s: string, p: char -> bool): (r: string)
    ensures r == "" || !p(r[0])
    ensures |r| <= |s| && r == s[|s| - |r|..]
  {
    if s != "" && p(s[0]) then DropLeading(s[1..], p) else s
  }

  function DropTrailing(s: string, p: char -> bool): (r: string)
    ensures r == "" || !p(r[|r| - 1])
    ensures |r| <= |s| && r == s[..|r|]
  {
    if s != "" && p(s[|s| - 1]) then DropTrailing(s[..|s| - 1], p) else s
  }

  function Strip(s: string, p: char -> bool): string { DropTrailing(DropLeading(s, p), p) }

  function Trim(s: string): string { Strip(s, IsSpace) }

  ghost predicate Bare(s: string, p: char -> bool) { s == "" || (!p(s[0]) && !p(s[|s| - 1])) }

  lemma StripIsBare(s: string, p: char -> bool)
    ensures Bare(Strip(s, p), p)
    ensures exists i, j :: 0 <= i <= j <= |s| && Strip(s, p) == s[i..j]
  {
    var l := DropLeading(s, p);
    var t := DropTrailing(l, p);
    var i := |s| - |l|;
    hide DropLeading, DropTrailing;
    assert t == s[i..i + |t|];
    assert Strip(s, p) == t;
    if t != "" { assert t[0] == l[0]; }
  }

  lemma StripOfBare(s: string, p: char -> bool)
    requires Bare(s, p)
    ensures Strip(s, p) == s
  {}

  lemma TrimIsIdempotent(s: string)
    ensures Trim(Trim(s)) == Trim(s)
  {
    StripIsBare(s, IsSpace);
    StripOfBare(Trim(s), IsSpace);
  }

  // ---------------------------------------------------------------- sanitizing

  const Forbidden: set<char> := {'\\', '/', ':', '*', '?', '"', '<', '>', '|'}

  const Reserved: set<string> := {
    "con", "prn", "aux", "nul",
    "com1", "com2", "com3", "com4", "com5", "com6", "com7", "com8", "com9",
    "lpt1", "lpt2", "lpt3", "lpt4", "lpt5", "lpt6", "lpt7", "lpt8", "lpt9"}

  function DropNul(s: string): string {
    if s == "" then "" else DropNul(s[..|s| - 1]) + (if s[|s| - 1] == '\0' then "" else [s[|s| - 1]])
  }

  function Blank(s: string): string {
    if s == "" then "" else Blank(s[..|s| - 1]) + [if s[|s| - 1] in Forbidden then ' ' else s[|s| - 1]]
  }

  /** Every run of white space becomes one space. */
  function Collapse(s: string): string {
    if s == "" then ""
    else
      var r := Collapse(s[..|s| - 1]);
      var c := s[|s| - 1];
      if !IsSpace(c) then r + [c]
      else if r != "" && r[|r| - 1] == ' ' then r
      else r + " "
  }

  function LowerChar(c: char): char { if 'A' <= c <= 'Z' then c - 'A' + 'a' else c }

  function Lower(s: string): (r: string)
    ensures |r| == |s| && forall i :: 0 <= i < |s| ==> r[i] == LowerChar(s[i])
  {
    if s == "" then "" else Lower(s[..|s| - 1]) + [LowerChar(s[|s| - 1])]
  }

  predicate IsReserved(s: string) { Lower(s) in Reserved }

  lemma ReservedAreShort(s: string)
    requires IsReserved(s)
    ensures 0 < |s| <= 4 && forall i :: 0 <= i < |s| ==> s[i] != '_'
  {
    var w := Lower(s);
    hide Lower;
    assert 0 < |w| <= 4 && forall i :: 0 <= i < |w| ==> w[i] != '_';
    forall i | 0 <= i < |s| ensures s[i] != '_' { assert w[i] == LowerChar(s[i]); }
  }

  function FirstDot(s: string): (k: nat)
    ensures k <= |s| && (k < |s| ==> s[k] == '.') && forall i :: 0 <= i < k ==> s[i] != '.'
  {
    if s == "" || s[0] == '.' then 0 else 1 + FirstDot(s[1..])
  }

  /** A name reserved on Windows gets an underscore before its first dot. */
  function Escape(name: string): string {
    var stem := name[..StemLength(name, |name|)];
    var k := FirstDot(stem);
    if IsReserved(if k == 0 then stem else stem[..k]) then stem[..k] + "_" + stem[k..] + name[|stem|..] else name
  }

  function Sanitize(name: string): string {
    var normalized := Trim(Strip(Trim(Collapse(Blank(DropNul(name)))), IsEdge));
    if normalized == "" then "Paket" else Escape(normalized)
  }

  // ---------------------------------------------------------------- sanitizing twice

  predicate IsClean(c: char) { c != '\0' && c !in Forbidden && (IsSpace(c) ==> c == ' ') }

  ghost predicate Spaced(s: string) {
    && (forall i :: 0 <= i < |s| ==> IsClean(s[i]))
    && (forall i :: 0 <= i < |s| - 1 ==> s[i] != ' ' || s[i + 1] != ' ')
  }

  lemma {:induction false} CollapseSpaces(s: string)
    requires forall i :: 0 <= i < |s| ==> s[i] != '\0' && s[i] !in Forbidden
    ensures Spaced(Collapse(s))
  {
    if s != "" { CollapseSpaces(s[..|s| - 1]); }
  }

  lemma {:induction false} DropNulDrops(s: string)
    ensures forall i :: 0 <= i < |DropNul(s)| ==> DropNul(s)[i] != '\0'
  {
    if s != "" { DropNulDrops(s[..|s| - 1]); }
  }

  lemma {:induction false} BlankBlanks(s: string)
    requires forall i :: 0 <= i < |s| ==> s[i] != '\0'
    ensures forall i :: 0 <= i < |Blank(s)| ==> Blank(s)[i] != '\0' && Blank(s)[i] !in Forbidden
  {
    if s != "" { BlankBlanks(s[..|s| - 1]); }
  }

  lemma {:induction false} SpacedIsFixed(s: string)
    requires Spaced(s)
    ensures DropNul(s) == s && Blank(s) == s && Collapse(s) == s
  {
    if s != "" {
      var t := s[..|s| - 1];
      SpacedIsFixed(t);
      assert s == t + [s[|s| - 1]];
      assert IsClean(s[|s| - 1]);
      if t != "" { assert t[|t| - 1] == s[|s| - 2]; }
    }
  }

  /** What sanitizing leaves alone. */
  ghost predicate Tidy(s: string) { s != "" && Spaced(s) && Bare(s, IsEdge) && Escape(s) == s }

  lemma TidyIsFixed(s: string)
    requires Tidy(s)
    ensures Sanitize(s) == s && Trim(s) == s
  {
    SpacedIsFixed(s);
    assert Bare(s, IsSpace);
    hide Escape, Spaced, Bare, DropNul, Blank, Collapse;
    StripOfBare(s, IsSpace);
    StripOfBare(s, IsEdge);
  }

  function Underscored(s: string, k: nat): string
    requires k <= |s|
  {
    s[..k] + "_" + s[k..]
  }

  lemma UnderscoreKeepsSpaced(s: string, k: nat)
    requires Spaced(s) && k <= |s|
    ensures Spaced(Underscored(s, k))
  {
    var e := Underscored(s, k);
    assert IsClean('_');
    hide IsClean;
    forall i | 0 <= i < |e| ensures IsClean(e[i]) {
      if i < k { assert e[i] == s[i]; } else if i > k { assert e[i] == s[i - 1]; }
    }
    forall i | 0 <= i < |e| - 1 ensures e[i] != ' ' || e[i + 1] != ' ' {
      if i + 1 < k { assert e[i] == s[i] && e[i + 1] == s[i + 1]; }
      else if i > k { assert e[i] == s[i - 1] && e[i + 1] == s[i]; }
    }
  }

  lemma UnderscoreKeepsBare(s: string, k: nat)
    requires s != "" && Bare(s, IsEdge) && 0 < k <= |s|
    ensures Bare(Underscored(s, k), IsEdge)
  {
    var e := Underscored(s, k);
    assert !IsEdge('_');
    assert e[0] == s[0] && (k < |s| ==> e[|e| - 1] == s[|s| - 1]);
  }

  /** Escaping inserts an underscore, and not at the front. */
  lemma EscapeInserts(s: string)
    requires s != "" && s[0] != '.'
    ensures Escape(s) == s || exists k :: 0 < k <= |s| && Escape(s) == Underscored(s, k)
  {
    hide IsReserved, StemLength, FirstDot;
    StemIsNotEmpty(s, |s|);
    var stem := s[..StemLength(s, |s|)];
    var k := FirstDot(stem);
    assert stem[0] == s[0];
    assert stem[..k] + "_" + stem[k..] + s[|stem|..] == Underscored(s, k);
  }

  lemma {:induction false} StemIsNotEmpty(s: string, n: nat)
    requires s != "" && n <= |s|
    ensures StemLength(s, n) > 0
  {
    if n > 1 && s != ".." && s[n - 1] != '.' { StemIsNotEmpty(s, n - 1); }
  }

  lemma EscapeKeepsSpaced(s: string)
    requires s != "" && Spaced(s) && Bare(s, IsEdge)
    ensures Escape(s) != "" && Spaced(Escape(s)) && Bare(Escape(s), IsEdge)
  {
    BareStart(s);
    assert s[0] != '.';
    hide Escape, Spaced, Bare, IsEdge;
    EscapeInserts(s);
    if Escape(s) != s {
      var k :| 0 < k <= |s| && Escape(s) == Underscored(s, k);
      UnderscoreKeepsSpaced(s, k);
      UnderscoreKeepsBare(s, k);
    }
  }

  /** The stem reaches to a dot or to the end. */
  lemma {:induction false} StemEndsAtDot(s: string, n: nat)
    requires n <= |s|
    ensures var k := StemLength(s, n); k == |s| || (k < |s| && s[k] == '.')
  {
    if n > 1 && s != ".." && s[n - 1] != '.' { StemEndsAtDot(s, n - 1); }
  }

  lemma UnderscoredIsFixed(e: string, k: nat)
    requires k < |e| && e[k] == '_' && forall i :: 0 <= i <= k ==> e[i] != '.'
    ensures Escape(e) == e
  {
    hide IsReserved;
    StemEndsAtDot(e, |e|);
    var stem := e[..StemLength(e, |e|)];
    hide StemLength;
    assert |stem| > k;
    var l := FirstDot(stem);
    assert l > k;
    hide FirstDot;
    assert stem[..l][k] == '_';
    if IsReserved(stem[..l]) { ReservedAreShort(stem[..l]); assert false; }
  }

  lemma EscapeEscapes(s: string)
    requires s != "" && !IsEdge(s[0])
    ensures Escape(Escape(s)) == Escape(s)
  {
    hide IsReserved, StemLength, IsSpace;
    var stem := s[..StemLength(s, |s|)];
    var k := FirstDot(stem);
    hide FirstDot;
    var e := stem[..k] + "_" + stem[k..] + s[|stem|..];
    if Escape(s) == e {
      hide Escape;
      UnderscoredIsFixed(e, k);
    }
  }

  lemma StripKeepsSpaced(s: string, p: char -> bool)
    requires Spaced(s)
    ensures Spaced(Strip(s, p))
  {
    StripIsBare(s, p);
    hide Strip, IsClean;
  }

  lemma EdgesIncludeSpaces(s: string)
    requires Bare(s, IsEdge)
    ensures Bare(s, IsSpace)
  {
    hide IsSpace;
  }

  lemma SanitizeIsTidy(name: string)
    ensures Tidy(Sanitize(name))
  {
    DropNulDrops(name);
    BlankBlanks(DropNul(name));
    var c := Collapse(Blank(DropNul(name)));
    CollapseSpaces(Blank(DropNul(name)));
    hide DropNul, Blank, Collapse, Escape, Strip, Spaced, Bare, IsSpace;
    StripKeepsSpaced(c, IsSpace);
    StripKeepsSpaced(Trim(c), IsEdge);
    StripIsBare(Trim(c), IsEdge);
    var t := Strip(Trim(c), IsEdge);
    EdgesIncludeSpaces(t);
    StripOfBare(t, IsSpace);
    if t == "" {
      PaketIsTidy();
    } else {
      BareStart(t);
      EscapeKeepsSpaced(t);
      EscapeEscapes(t);
    }
  }

  lemma BareStart(s: string)
    requires s != "" && Bare(s, IsEdge)
    ensures !IsEdge(s[0])
  {}

  lemma PaketIsTidy()
    ensures Tidy("Paket")
  {
    var s := "Paket";
    assert Spaced(s) && Bare(s, IsEdge);
    hide Spaced, Bare, IsReserved, StemLength, FirstDot;
    LongIsFixed(s);
  }

  /** A name without a dot that is longer than the reserved ones is left alone. */
  lemma LongIsFixed(s: string)
    requires |s| > 4 && forall i :: 0 <= i < |s| ==> s[i] != '.'
    ensures Escape(s) == s
  {
    hide IsReserved;
    StemEndsAtDot(s, |s|);
    hide StemLength;
    assert s[..|s|] == s;
    if IsReserved(s) { ReservedAreShort(s); assert false; }
  }

  /** Sanitizing never yields an empty name; its result needs no trimming and no further sanitizing. */
  lemma SanitizeIsIdempotent(name: string)
    ensures Sanitize(name) != "" && Trim(Sanitize(name)) == Sanitize(name) && Sanitize(Sanitize(name)) == Sanitize(name)
  {
    hide Sanitize, Trim, Spaced, Bare, Escape;
    SanitizeIsTidy(name);
    TidyIsFixed(Sanitize(name));
  }
}
