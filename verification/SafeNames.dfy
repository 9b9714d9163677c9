/** What a sanitized file name is safe from, and what it keeps (src/main/utils.ts:12-16, 94-117). */
module SafeNames {
  import opened PublicationNames
  import opened FileNames

  /** The white space of ECMAScript, character by character. */
  lemma WhatIsSpace(c: char)
    ensures IsSpace(c)
            <==> c as int in {9, 10, 11, 12, 13, 32, 160, 5760, 8192, 8193, 8194, 8195, 8196, 8197, 8198, 8199, 8200,
                              8201, 8202, 8232, 8233, 8239, 8287, 12288, 65279}
  {}

  // ---------------------------------------------------------------- device names

  /** The same letters, whatever the case of the first. */
  predicate SameLetters(a: string, b: string) {
    |a| == |b| && forall i :: 0 <= i < |a| ==> a[i] == b[i] || ('a' <= b[i] <= 'z' && a[i] as int == b[i] as int - 32)
  }

  /** A device of Windows, in any letter case: con, prn, aux, nul, com1 to com9 and lpt1 to lpt9. */
  predicate IsDevice(base: string) {
    || SameLetters(base, "con") || SameLetters(base, "prn") || SameLetters(base, "aux") || SameLetters(base, "nul")
    || (|base| == 4 && '1' <= base[3] <= '9' && (SameLetters(base[..3], "com") || SameLetters(base[..3], "lpt")))
  }

  lemma LowerIs(a: string, b: string)
    requires forall i :: 0 <= i < |b| ==> 'a' <= b[i] <= 'z' || '0' <= b[i] <= '9'
    ensures Lower(a) == b <==> SameLetters(a, b)
  {
    hide Lower;
    if SameLetters(a, b) { assert forall i :: 0 <= i < |a| ==> Lower(a)[i] == b[i]; }
  }

  lemma NumberedLetters(a: string, stem: string, digit: char)
    requires |stem| == 3 && '1' <= digit <= '9'
    ensures SameLetters(a, stem + [digit]) <==> |a| == 4 && a[3] == digit && SameLetters(a[..3], stem)
  {
    var b := stem + [digit];
    assert forall i :: 0 <= i < 3 ==> b[i] == stem[i];
    if SameLetters(a, b) { assert a[3] == b[3]; }
  }

  lemma NumberedDevice(a: string, stem: string, digit: char)
    requires stem in {"com", "lpt"} && '1' <= digit <= '9'
    ensures Lower(a) == stem + [digit] <==> |a| == 4 && a[3] == digit && SameLetters(a[..3], stem)
  {
    hide Lower, SameLetters;
    LowerIs(a, stem + [digit]);
    NumberedLetters(a, stem, digit);
  }

  lemma ComPorts(w: string)
    ensures (exists digit :: '1' <= digit <= '9' && w == "com" + [digit])
            <==> w in {"com1", "com2", "com3", "com4", "com5", "com6", "com7", "com8", "com9"}
  {
    assert "com" + ['1'] == "com1" && "com" + ['2'] == "com2" && "com" + ['3'] == "com3";
    assert "com" + ['4'] == "com4" && "com" + ['5'] == "com5" && "com" + ['6'] == "com6";
    assert "com" + ['7'] == "com7" && "com" + ['8'] == "com8" && "com" + ['9'] == "com9";
  }

  lemma LptPorts(w: string)
    ensures (exists digit :: '1' <= digit <= '9' && w == "lpt" + [digit])
            <==> w in {"lpt1", "lpt2", "lpt3", "lpt4", "lpt5", "lpt6", "lpt7", "lpt8", "lpt9"}
  {
    assert "lpt" + ['1'] == "lpt1" && "lpt" + ['2'] == "lpt2" && "lpt" + ['3'] == "lpt3";
    assert "lpt" + ['4'] == "lpt4" && "lpt" + ['5'] == "lpt5" && "lpt" + ['6'] == "lpt6";
    assert "lpt" + ['7'] == "lpt7" && "lpt" + ['8'] == "lpt8" && "lpt" + ['9'] == "lpt9";
  }

  /** In lower case, one of the numbered devices of this kind. */
  ghost predicate Numbered(w: string, stem: string) { exists digit :: '1' <= digit <= '9' && w == stem + [digit] }

  lemma ReservedIs(w: string)
    ensures w in Reserved <==> w in {"con", "prn", "aux", "nul"} || Numbered(w, "com") || Numbered(w, "lpt")
  {
    ComPorts(w);
    LptPorts(w);
  }

  lemma NumberedIs(base: string, stem: string)
    requires stem in {"com", "lpt"}
    ensures Numbered(Lower(base), stem)
            <==> |base| == 4 && '1' <= base[3] <= '9' && SameLetters(base[..3], stem)
  {
    hide Lower, SameLetters;
    if digit :| '1' <= digit <= '9' && Lower(base) == stem + [digit] { NumberedDevice(base, stem, digit); }
    if |base| == 4 && '1' <= base[3] <= '9' { NumberedDevice(base, stem, base[3]); }
  }

  lemma DevicesAreReserved(base: string)
    ensures IsDevice(base) <==> IsReserved(base)
  {
    ReservedIs(Lower(base));
    LowerIs(base, "con");
    LowerIs(base, "prn");
    LowerIs(base, "aux");
    LowerIs(base, "nul");
    NumberedIs(base, "com");
    NumberedIs(base, "lpt");
    hide Lower, SameLetters, Numbered;
  }

  // ---------------------------------------------------------------- safe names

  /** The name up to its first dot. */
  function Base(name: string): string { name[..FirstDot(name)] }

  /** A character that may stand in a file name, as white space only the space itself. */
  predicate Allowed(c: char) { c != '\0' && c !in "\\/:*?\"<>|" && (IsSpace(c) ==> c == ' ') }

  lemma AllowedIsClean(c: char)
    ensures Allowed(c) <==> IsClean(c)
  {
    hide IsSpace;
  }

  /** Not empty, without the characters that file systems forbid, without white space but single spaces, not beginning
      or ending with a dot or a space, and not the name of a device, with or without extensions. */
  ghost predicate Safe(name: string) {
    && name != "" && !IsDevice(Base(name))
    && (forall i :: 0 <= i < |name| ==> Allowed(name[i]))
    && (forall i :: 0 <= i < |name| - 1 ==> name[i] != ' ' || name[i + 1] != ' ')
    && name[0] != '.' && name[0] != ' ' && name[|name| - 1] != '.' && name[|name| - 1] != ' '
  }

  lemma {:induction false} FirstDotIs(s: string, k: nat)
    requires k <= |s| && (k < |s| ==> s[k] == '.') && forall i :: 0 <= i < k ==> s[i] != '.'
    ensures FirstDot(s) == k
  {}

  /** What is compared with the devices is the name up to its first dot. */
  lemma BaseOfStem(s: string)
    requires s != "" && s[0] != '.'
    ensures var stem := s[..StemLength(s, |s|)];
            FirstDot(stem) > 0 && stem[..FirstDot(stem)] == Base(s)
  {
    StemIsBeforeLastDot(s, |s|);
    StemIsNotEmpty(s, |s|);
    var n := StemLength(s, |s|);
    var stem := s[..n];
    hide StemLength;
    var k := FirstDot(s);
    if k < n {
      FirstDotIs(stem, k);
    } else {
      assert n < |s| ==> k == n;
      assert n == |s| ==> k == n;
      FirstDotIs(stem, n);
    }
  }

  lemma EscapedExactly(s: string)
    requires s != "" && s[0] != '.'
    ensures Escape(s) == s <==> !IsDevice(Base(s))
  {
    hide IsReserved, IsDevice;
    BaseOfStem(s);
    DevicesAreReserved(Base(s));
    hide StemLength, FirstDot, Base;
    var stem := s[..StemLength(s, |s|)];
    var k := FirstDot(stem);
    assert |stem[..k] + "_" + stem[k..] + s[|stem|..]| == |s| + 1;
  }

  lemma SpacedIs(s: string)
    ensures Spaced(s) <==> && (forall i :: 0 <= i < |s| ==> Allowed(s[i]))
                           && (forall i :: 0 <= i < |s| - 1 ==> s[i] != ' ' || s[i + 1] != ' ')
  {
    forall i | 0 <= i < |s| ensures Allowed(s[i]) <==> IsClean(s[i]) { AllowedIsClean(s[i]); }
    hide Allowed, IsClean;
  }

  /** Among the allowed characters the edges are dots and spaces. */
  lemma EdgeIs(c: char)
    requires Allowed(c)
    ensures IsEdge(c) <==> c == '.' || c == ' '
  {
    assert IsSpace(' ');
    hide IsSpace;
  }

  lemma SafeIsTidy(s: string)
    ensures Safe(s) <==> Tidy(s)
  {
    SpacedIs(s);
    if s != "" && Allowed(s[0]) && Allowed(s[|s| - 1]) {
      EdgeIs(s[0]);
      EdgeIs(s[|s| - 1]);
      if s[0] != '.' { EscapedExactly(s); }
    }
    hide Escape, IsDevice, Base, IsEdge, Allowed, Spaced;
  }

  /** Sanitizing makes every name safe, and leaves a name as it is exactly if it is safe. */
  lemma SanitizedIsSafe(name: string)
    ensures Safe(Sanitize(name)) && (Sanitize(name) == name <==> Safe(name))
  {
    hide Sanitize, Safe, Tidy;
    SanitizeIsTidy(name);
    SafeIsTidy(Sanitize(name));
    SafeIsTidy(name);
    if Safe(name) { TidyIsFixed(name); }
  }

  // ---------------------------------------------------------------- what is kept

  /** Neither white space nor a dot nor forbidden. */
  predicate Ordinary(c: char) { c != '\0' && c !in Forbidden && c != '.' && !IsSpace(c) }

  function Plain(s: string): string {
    if s == "" then "" else Plain(s[..|s| - 1]) + (if Ordinary(s[|s| - 1]) then [s[|s| - 1]] else "")
  }

  lemma {:induction false} PlainConcat(a: string, b: string)
    ensures Plain(a + b) == Plain(a) + Plain(b)
  {
    hide Ordinary;
    if b == "" {
      assert a + b == a;
    } else {
      assert (a + b)[..|a + b| - 1] == a + b[..|b| - 1];
      PlainConcat(a, b[..|b| - 1]);
    }
  }

  lemma PlainOne(c: char)
    ensures Plain([c]) == if Ordinary(c) then [c] else ""
  {
    assert [c][..0] == "";
  }

  lemma PlainLast(s: string)
    requires s != ""
    ensures var c := s[|s| - 1];
            Plain(s) == Plain(s[..|s| - 1]) + Plain([c]) && Plain([c]) == if Ordinary(c) then [c] else ""
  {
    PlainOne(s[|s| - 1]);
    PlainConcat(s[..|s| - 1], [s[|s| - 1]]);
    assert s[..|s| - 1] + [s[|s| - 1]] == s;
    hide Plain;
  }

  lemma {:induction false} PlainDropNul(s: string)
    ensures Plain(DropNul(s)) == Plain(s)
  {
    if s != "" {
      var t, c := s[..|s| - 1], s[|s| - 1];
      PlainDropNul(t);
      PlainLast(s);
      PlainConcat(DropNul(t), [c]);
      hide Plain, IsSpace;
      if c == '\0' { assert DropNul(s) == DropNul(t); }
    }
  }

  lemma {:induction false} PlainBlank(s: string)
    ensures Plain(Blank(s)) == Plain(s)
  {
    if s != "" {
      var t, c := s[..|s| - 1], s[|s| - 1];
      PlainBlank(t);
      PlainLast(s);
      PlainOne(' ');
      SpaceIsOrdinaryNot();
      PlainConcat(Blank(t), [if c in Forbidden then ' ' else c]);
      hide Plain, IsSpace;
    }
  }

  lemma {:induction false} PlainCollapse(s: string)
    ensures Plain(Collapse(s)) == Plain(s)
  {
    if s != "" {
      var t, c := s[..|s| - 1], s[|s| - 1];
      PlainCollapse(t);
      PlainLast(s);
      PlainOne(' ');
      SpaceIsOrdinaryNot();
      PlainConcat(Collapse(t), [c]);
      PlainConcat(Collapse(t), " ");
      hide Plain, IsSpace;
    }
  }

  lemma SpaceIsOrdinaryNot()
    ensures !Ordinary(' ')
  {}

  lemma {:induction false} PlainLeading(s: string, p: char -> bool)
    requires forall c :: p(c) ==> !Ordinary(c)
    ensures Plain(DropLeading(s, p)) == Plain(s)
  {
    if s != "" && p(s[0]) {
      PlainLeading(s[1..], p);
      PlainOne(s[0]);
      PlainConcat([s[0]], s[1..]);
      assert [s[0]] + s[1..] == s;
      hide Plain, Ordinary;
    }
  }

  lemma {:induction false} PlainTrailing(s: string, p: char -> bool)
    requires forall c :: p(c) ==> !Ordinary(c)
    ensures Plain(DropTrailing(s, p)) == Plain(s)
  {
    hide Ordinary;
    if s != "" && p(s[|s| - 1]) { PlainTrailing(s[..|s| - 1], p); }
  }

  lemma PlainStrip(s: string)
    ensures Plain(Strip(s, IsSpace)) == Plain(s) && Plain(Strip(s, IsEdge)) == Plain(s)
  {
    assert forall c :: IsSpace(c) ==> !Ordinary(c);
    assert forall c :: IsEdge(c) ==> !Ordinary(c);
    hide Plain, Ordinary, DropLeading, DropTrailing, IsEdge, IsSpace;
    PlainLeading(s, IsSpace);
    PlainTrailing(DropLeading(s, IsSpace), IsSpace);
    PlainLeading(s, IsEdge);
    PlainTrailing(DropLeading(s, IsEdge), IsEdge);
  }

  /** The name before devices are looked for. */
  function Tidied(name: string): string { Trim(Strip(Trim(Collapse(Blank(DropNul(name)))), IsEdge)) }

  lemma TidiedKeeps(name: string)
    ensures Plain(Tidied(name)) == Plain(name)
    ensures Tidied(name) != "" ==> Plain(name) != "" && Tidied(name)[0] != '.'
  {
    var c := Collapse(Blank(DropNul(name)));
    PlainDropNul(name);
    PlainBlank(DropNul(name));
    PlainCollapse(Blank(DropNul(name)));
    PlainStrip(c);
    PlainStrip(Trim(c));
    var t := Strip(Trim(c), IsEdge);
    PlainStrip(t);
    StripIsBare(Trim(c), IsEdge);
    EdgesIncludeSpaces(t);
    StripOfBare(t, IsSpace);
    DropNulDrops(name);
    BlankBlanks(DropNul(name));
    CollapseSpaces(Blank(DropNul(name)));
    StripKeepsSpaced(c, IsSpace);
    StripKeepsSpaced(Trim(c), IsEdge);
    if t != "" { FirstIsOrdinary(t); }
    hide Plain, Collapse, Blank, DropNul, Strip, IsEdge;
  }

  lemma FirstIsOrdinary(t: string)
    requires t != "" && Spaced(t) && Bare(t, IsEdge)
    ensures Plain(t) != "" && t[0] != '.'
  {
    PlainOne(t[0]);
    PlainConcat([t[0]], t[1..]);
    assert [t[0]] + t[1..] == t;
    hide Plain;
  }

  lemma EscapeIs(t: string)
    requires t != "" && t[0] != '.'
    ensures Escape(t) == if IsDevice(Base(t)) then Underscored(t, |Base(t)|) else t
  {
    BaseOfStem(t);
    DevicesAreReserved(Base(t));
    hide IsReserved, StemLength, FirstDot, IsDevice, Base;
    var stem := t[..StemLength(t, |t|)];
    var k := FirstDot(stem);
    assert stem[..k] + "_" + stem[k..] + t[|stem|..] == Underscored(t, k);
  }

  lemma SanitizeIs(name: string)
    ensures Sanitize(name) == if Tidied(name) == "" then "Paket" else Escape(Tidied(name))
  {
    hide Collapse, Blank, DropNul, Strip, Escape;
  }

  /** Nothing but that is lost or changed: the ordinary characters of a name are kept in their order, and only a device
      gets an underscore behind its base.  A name without any becomes "Paket". */
  lemma SanitizeKeepsLetters(name: string)
    ensures Plain(name) == "" ==> Sanitize(name) == "Paket"
    ensures Plain(name) != "" ==>
              exists t :: Plain(t) == Plain(name)
                          && Sanitize(name) == if IsDevice(Base(t)) then Underscored(t, |Base(t)|) else t
  {
    hide Sanitize, Tidied, Escape, IsDevice, Base;
    SanitizeIs(name);
    TidiedKeeps(name);
    assert Plain("") == "";
    hide Plain;
    if Tidied(name) != "" { EscapeIs(Tidied(name)); }
  }
}
