/** `tidy_name` of the boundary rebuild script: the normaliser applied to
    raw administrative names before they are written out.  It is a chain
    of five passes over the string, each one a function here. */
module BuildGeojsons {
  import opened PyStr

  /** A cell handed to `tidy_name`: a Python str, or any other object
      (NaN, None, a number), told apart only by an identity. */
  datatype Value = Str(text: string) | Other(id: nat)

  // ---------------------------------------------------------------------
  // The five passes
  // ---------------------------------------------------------------------

  /** Pass 1: `.replace("_", " ").replace("-", " ")`. */
  function ReplaceSeparators(s: string): (r: string)
    ensures |r| == |s|
    ensures forall i :: 0 <= i < |s| ==> r[i] == if s[i] == '_' || s[i] == '-' then ' ' else s[i]
  {
    if s == [] then []
    else [if s[0] == '_' || s[0] == '-' then ' ' else s[0]] + ReplaceSeparators(s[1..])
  }

  /** Pass 2: `re.sub(r"(?<=[a-z])and(?=[A-Z])", " and ", ...)`, scanned left
      to right.  `afterLower` is the lookbehind: whether the character just
      before `s` in the pass's input is in `[a-z]` (false at the start).
      Two matches of `and` can never overlap, so after a match the scan
      resumes right behind it, where the character before is the `d`. */
  function SplitGluedAnd(s: string, afterLower: bool): string
  {
    if GluedAnd(s, afterLower) then
      " and " + SplitGluedAnd(s[3..], true)
    else if s == [] then []
    else [s[0]] + SplitGluedAnd(s[1..], IsLower(s[0]))
  }

  /** The pattern of pass 2 matches at the start of `s`: a letter in
      `[a-z]` just before, then `and`, then a letter in `[A-Z]`. */
  predicate GluedAnd(s: string, afterLower: bool) {
    afterLower && |s| >= 4 && s[0] == 'a' && s[1] == 'n' && s[2] == 'd' && IsUpper(s[3])
  }

  /** Pass 3: `re.sub(r"(?<!\s)(?=[A-Z])", " ", ...)`: a space goes in
      front of every capital whose predecessor in the pass's input is not
      whitespace.  `afterSpace` is that lookbehind for the first character;
      at the very start it is false, so a leading capital gets a space. */
  function SplitCamel(s: string, afterSpace: bool): string
  {
    if s == [] then []
    else (if IsUpper(s[0]) && !afterSpace then [' ', s[0]] else [s[0]])
         + SplitCamel(s[1..], IsSpace(s[0]))
  }

  /** Pass 4: `re.sub(r"\s+", " ", ...)`: each maximal whitespace run
      becomes one `' '`.  `inRun` tells whether `s` starts inside a run that
      has already been replaced. */
  function CollapseSpace(s: string, inRun: bool): string
  {
    if s == [] then []
    else if IsSpace(s[0]) then
      (if inRun then [] else [' ']) + CollapseSpace(s[1..], true)
    else [s[0]] + CollapseSpace(s[1..], false)
  }

  /** The five passes in order, the last being `.strip()`. */
  function Tidy(s: string): string {
    Strip(CollapseSpace(SplitCamel(SplitGluedAnd(ReplaceSeparators(s), false), false), false))
  }

  /** `tidy_name`: anything that is not a str comes back as it is. */
  function TidyName(v: Value): (r: Value)
    ensures v.Other? ==> r == v
    ensures v.Str? ==> r.Str? && IsTidy(r.text)
  {
    match v
    case Other(_) => v
    case Str(s) => TidyIsTidy(s); Str(Tidy(s))
  }

  // ---------------------------------------------------------------------
  // What a tidy name looks like
  // ---------------------------------------------------------------------

  predicate NoSeparator(s: string) {
    forall i :: 0 <= i < |s| ==> s[i] != '_' && s[i] != '-'
  }

  /** Every whitespace character is a plain space and no two are adjacent. */
  predicate SingleSpaced(s: string) {
    && (forall i :: 0 <= i < |s| && IsSpace(s[i]) ==> s[i] == ' ')
    && (forall i, j {:trigger s[i], s[j]} :: 0 <= i && j == i + 1 < |s| && s[j] == ' ' ==> s[i] != ' ')
  }

  /** Every capital is the first character or comes right after a space. */
  predicate WordStarts(s: string) {
    forall i, j {:trigger s[i], s[j]} :: 0 <= i && j == i + 1 < |s| && IsUpper(s[j]) ==> s[i] == ' '
  }

  predicate IsTidy(s: string) {
    NoSeparator(s) && Trimmed(s) && SingleSpaced(s) && WordStarts(s)
  }

  /** Every capital of `s` follows whitespace; for the first character the
      answer is `before`. */
  predicate CapsAfterSpace(s: string, before: bool) {
    && (|s| > 0 && IsUpper(s[0]) ==> before)
    && (forall i, j {:trigger s[i], s[j]} :: 0 <= i && j == i + 1 < |s| && IsUpper(s[j]) ==> IsSpace(s[i]))
  }

  // ---------------------------------------------------------------------
  // The output is always tidy
  // ---------------------------------------------------------------------

  lemma {:induction false} ReplaceSeparatorsClears(s: string)
    ensures NoSeparator(ReplaceSeparators(s))
  {
    if s != [] {
      ReplaceSeparatorsClears(s[1..]);
    }
  }

  lemma {:induction false} SplitCamelCaps(s: string, afterSpace: bool)
    ensures CapsAfterSpace(SplitCamel(s, afterSpace), afterSpace)
  {
    if s != [] {
      SplitCamelCaps(s[1..], IsSpace(s[0]));
    }
  }

  lemma {:induction false} CollapseSpaceCaps(s: string, inRun: bool)
    requires CapsAfterSpace(s, inRun)
    ensures CapsAfterSpace(CollapseSpace(s, inRun), inRun)
  {
    if s != [] {
      var t := s[1..];
      if IsSpace(s[0]) {
        assert CapsAfterSpace(t, true) by {
          forall i | 0 < i < |t| ensures t[i] == s[i + 1] && t[i - 1] == s[i] { }
        }
        CollapseSpaceCaps(t, true);
      } else {
        assert CapsAfterSpace(t, false) by {
          assert |t| > 0 ==> t[0] == s[1];
          forall i | 0 < i < |t| ensures t[i] == s[i + 1] && t[i - 1] == s[i] { }
        }
        CollapseSpaceCaps(t, false);
        var c := CollapseSpace(t, false);
        var r := CollapseSpace(s, inRun);
        assert r == [s[0]] + c;
        forall i | 0 < i < |r| && IsUpper(r[i]) ensures IsSpace(r[i - 1]) {
          assert r[i] == c[i - 1];
          if i > 1 { assert r[i - 1] == c[i - 2]; }
        }
      }
    }
  }

  lemma {:induction false} CollapseSpaceSingle(s: string, inRun: bool)
    ensures var r := CollapseSpace(s, inRun);
            SingleSpaced(r) && (inRun && r != [] ==> !IsSpace(r[0]))
  {
    if s != [] {
      CollapseSpaceSingle(s[1..], IsSpace(s[0]));
    }
  }

  /** `tidy_name` of a str is tidy: no `_` or `-`, no whitespace at either
      end, single plain spaces only, and every capital starts a word. */
  lemma TidyIsTidy(s: string)
    ensures IsTidy(Tidy(s))
  {
    var p2 := SplitGluedAnd(ReplaceSeparators(s), false);
    var p3 := SplitCamel(p2, false);
    var p4 := CollapseSpace(p3, false);
    ReplaceSeparatorsClears(s);
    SplitCamelCaps(p2, false);
    CollapseSpaceCaps(p3, false);
    CollapseSpaceSingle(p3, false);
    NoSeparatorThroughPasses(s);
    StripKeepsTidy(p4);
  }

  /** Passes 2 to 4 only ever add plain spaces, so no separator comes back. */
  lemma NoSeparatorThroughPasses(s: string)
    requires NoSeparator(ReplaceSeparators(s))
    ensures NoSeparator(CollapseSpace(SplitCamel(SplitGluedAnd(ReplaceSeparators(s), false), false), false))
  {
    var p1 := ReplaceSeparators(s);
    var p2 := SplitGluedAnd(p1, false);
    var p3 := SplitCamel(p2, false);
    var p4 := CollapseSpace(p3, false);
    SplitGluedAndChars(p1, false);
    SplitCamelChars(p2, false);
    CollapseSpaceChars(p3, false);
    forall i | 0 <= i < |p4| ensures p4[i] != '_' && p4[i] != '-' {
      assert p4[i] in p4;
      if p4[i] != ' ' {
        assert p4[i] in p1;
      }
    }
  }

  lemma {:induction false} SplitGluedAndChars(s: string, afterLower: bool)
    ensures forall c :: c in SplitGluedAnd(s, afterLower) ==> c in s || c == ' '
  {
    if GluedAnd(s, afterLower) {
      assert s[0] == 'a' && s[1] == 'n' && s[2] == 'd';
      SplitGluedAndChars(s[3..], true);
    } else if s != [] {
      SplitGluedAndChars(s[1..], IsLower(s[0]));
    }
  }

  lemma {:induction false} SplitCamelChars(s: string, afterSpace: bool)
    ensures forall c :: c in SplitCamel(s, afterSpace) ==> c in s || c == ' '
  {
    if s != [] {
      SplitCamelChars(s[1..], IsSpace(s[0]));
    }
  }

  lemma {:induction false} CollapseSpaceChars(s: string, inRun: bool)
    ensures forall c :: c in CollapseSpace(s, inRun) ==> c in s || c == ' '
  {
    if s != [] {
      CollapseSpaceChars(s[1..], IsSpace(s[0]));
    }
  }

  /** `.strip()` keeps a single-spaced string whose capitals follow
      whitespace single-spaced, free of separators, and word-started. */
  lemma StripKeepsTidy(p: string)
    requires NoSeparator(p) && SingleSpaced(p) && CapsAfterSpace(p, false)
    ensures IsTidy(Strip(p))
  {
    var l := StripLeft(p);
    StripLeftKeeps(p, false);
    StripRightKeeps(l);
    var r := StripRight(l);
    assert r == Strip(p);
    assert WordStarts(r);
  }

  /** Dropping leading whitespace keeps the tidy properties; what was in
      front of the result is whitespace, or `before` when nothing went. */
  lemma {:induction false} StripLeftKeeps(p: string, before: bool)
    requires NoSeparator(p) && SingleSpaced(p) && CapsAfterSpace(p, before)
    ensures NoSeparator(StripLeft(p)) && SingleSpaced(StripLeft(p)) && CapsAfterSpace(StripLeft(p), true)
  {
    if p != [] && IsSpace(p[0]) {
      DropFirstKeeps(p, before);
      StripLeftKeeps(p[1..], true);
    }
  }

  /** Dropping trailing whitespace keeps the tidy properties. */
  lemma {:induction false} StripRightKeeps(p: string)
    requires NoSeparator(p) && SingleSpaced(p) && CapsAfterSpace(p, true)
    ensures NoSeparator(StripRight(p)) && SingleSpaced(StripRight(p)) && CapsAfterSpace(StripRight(p), true)
  {
    if p != [] && IsSpace(p[|p| - 1]) {
      DropLastKeeps(p);
      StripRightKeeps(p[..|p| - 1]);
    }
  }

  lemma DropFirstKeeps(p: string, before: bool)
    requires p != [] && NoSeparator(p) && SingleSpaced(p) && CapsAfterSpace(p, before)
    ensures NoSeparator(p[1..]) && SingleSpaced(p[1..]) && CapsAfterSpace(p[1..], IsSpace(p[0]))
  {
    var u := p[1..];
    forall i | 0 <= i < |u| ensures u[i] == p[i + 1] { }
  }

  lemma DropLastKeeps(p: string)
    requires p != [] && NoSeparator(p) && SingleSpaced(p) && CapsAfterSpace(p, true)
    ensures NoSeparator(p[..|p| - 1]) && SingleSpaced(p[..|p| - 1]) && CapsAfterSpace(p[..|p| - 1], true)
  {
    var u := p[..|p| - 1];
    forall i | 0 <= i < |u| ensures u[i] == p[i] { }
  }

  // ---------------------------------------------------------------------
  // A tidy name is a fixed point, hence idempotence
  // ---------------------------------------------------------------------

  lemma {:induction false} ReplaceSeparatorsNoop(t: string)
    requires NoSeparator(t)
    ensures ReplaceSeparators(t) == t
  {
    if t != [] {
      ReplaceSeparatorsNoop(t[1..]);
    }
  }

  /** With every capital after whitespace, no `and` is followed by a capital,
      so pass 2 finds nothing to split. */
  lemma {:induction false} SplitGluedAndNoop(t: string, afterLower: bool)
    requires CapsAfterSpace(t, true)
    ensures SplitGluedAnd(t, afterLower) == t
  {
    if t != [] {
      if |t| >= 4 && t[2] == 'd' {
        assert !IsSpace(t[2]);
      }
      CapsAfterSpaceTail(t, true);
      SplitGluedAndNoop(t[1..], IsLower(t[0]));
    }
  }

  /** Behind the first character, the lookbehind is that character. */
  lemma CapsAfterSpaceTail(t: string, before: bool)
    requires t != [] && CapsAfterSpace(t, before)
    ensures CapsAfterSpace(t[1..], IsSpace(t[0]))
  {
    var u := t[1..];
    forall i | 0 <= i < |u| ensures u[i] == t[i + 1] { }
  }

  lemma {:induction false} SplitCamelNoop(t: string, afterSpace: bool)
    requires CapsAfterSpace(t, afterSpace)
    ensures SplitCamel(t, afterSpace) == t
  {
    if t != [] {
      CapsAfterSpaceTail(t, afterSpace);
      SplitCamelNoop(t[1..], IsSpace(t[0]));
    }
  }

  lemma {:induction false} CollapseSpaceNoop(t: string, inRun: bool)
    requires SingleSpaced(t)
    requires inRun && t != [] ==> !IsSpace(t[0])
    ensures CollapseSpace(t, inRun) == t
  {
    if t != [] {
      var u := t[1..];
      assert SingleSpaced(u) by {
        forall i | 0 <= i < |u| ensures u[i] == t[i + 1] { }
      }
      if IsSpace(t[0]) {
        assert u != [] ==> u[0] == t[1] && !IsSpace(u[0]);
        CollapseSpaceNoop(u, true);
      } else {
        CollapseSpaceNoop(u, false);
      }
    }
  }

  /** `tidy_name` leaves an already tidy name as it is. */
  lemma TidyFixesTidy(t: string)
    requires IsTidy(t)
    ensures Tidy(t) == t
  {
    ReplaceSeparatorsNoop(t);
    SplitGluedAndNoop(t, false);
    SplitCamelOfTidy(t);
    var p3 := SplitCamel(t, false);
    CollapseSpaceNoop(p3, false);
    if p3 != t {
      assert StripLeft(p3) == StripLeft(t);
    }
    StripTrimmed(t);
  }

  /** On a tidy name pass 3 only puts a space in front of a leading capital. */
  lemma SplitCamelOfTidy(t: string)
    requires IsTidy(t)
    ensures SplitCamel(t, false) == t || (t != [] && SplitCamel(t, false) == [' '] + t)
    ensures SingleSpaced(SplitCamel(t, false))
  {
    if t != [] && IsUpper(t[0]) {
      var u := t[1..];
      TailOfWordStarts(t);
      SplitCamelNoop(u, false);
      assert [' ', t[0]] + u == [' '] + t;
      SpaceBeforeTidy(t);
    } else {
      SplitCamelNoop(t, false);
    }
  }

  /** Behind a leading capital of a word-started string, every capital
      follows whitespace. */
  lemma TailOfWordStarts(t: string)
    requires WordStarts(t) && t != [] && IsUpper(t[0])
    ensures CapsAfterSpace(t[1..], false)
  {
    var u := t[1..];
    forall i | 0 < i < |u| ensures u[i] == t[i + 1] && u[i - 1] == t[i] { }
    assert u != [] ==> u[0] == t[1];
  }

  /** One space in front of a trimmed single-spaced string keeps it
      single-spaced. */
  lemma SpaceBeforeTidy(t: string)
    requires SingleSpaced(t) && Trimmed(t)
    ensures SingleSpaced([' '] + t)
  {
    var p := [' '] + t;
    forall i | 1 <= i < |p| ensures p[i] == t[i - 1] { }
  }

  /** `tidy_name(tidy_name(s)) == tidy_name(s)`. */
  lemma TidyIdempotent(s: string)
    ensures Tidy(Tidy(s)) == Tidy(s)
  {
    TidyIsTidy(s);
    TidyFixesTidy(Tidy(s));
  }

  lemma TidyNameIdempotent(v: Value)
    ensures TidyName(TidyName(v)) == TidyName(v)
  {
    if v.Str? {
      TidyIdempotent(v.text);
    }
  }

  // ---------------------------------------------------------------------
  // Each pass changes only what its pattern matches
  // ---------------------------------------------------------------------

  /** The pattern of pass 2 matches at no position of `s`; at position `i`
      the lookbehind is `s[i - 1]`, and at 0 it is `afterLower`. */
  predicate NoGluedAnd(s: string, afterLower: bool) {
    && !GluedAnd(s, afterLower)
    && forall i :: 0 < i < |s| ==> !GluedAnd(s[i..], IsLower(s[i - 1]))
  }

  /** Pass 2 never shortens a string, and it keeps the length exactly
      when it matches nowhere. */
  lemma {:induction false} SplitGluedAndLength(s: string, afterLower: bool)
    ensures |SplitGluedAnd(s, afterLower)| >= |s|
    ensures |SplitGluedAnd(s, afterLower)| == |s| <==> NoGluedAnd(s, afterLower)
  {
    if GluedAnd(s, afterLower) {
      SplitGluedAndLength(s[3..], true);
    } else if s != [] {
      var t := s[1..];
      SplitGluedAndLength(t, IsLower(s[0]));
      forall i | 0 < i < |s| ensures s[i..] == t[i - 1..] && (i > 1 ==> s[i - 1] == t[i - 2]) { }
      assert NoGluedAnd(s, afterLower) <==> NoGluedAnd(t, IsLower(s[0])) by {
        forall i | 0 < i < |t| ensures t[i..] == s[i + 1..] && t[i - 1] == s[i] { }
      }
    }
  }

  /** Pass 2 leaves `s` as it is exactly when its pattern matches nowhere. */
  lemma SplitGluedAndNone(s: string, afterLower: bool)
    ensures SplitGluedAnd(s, afterLower) == s <==> NoGluedAnd(s, afterLower)
  {
    SplitGluedAndLength(s, afterLower);
    if NoGluedAnd(s, afterLower) {
      SplitGluedAndNoMatch(s, afterLower);
    }
  }

  lemma {:induction false} SplitGluedAndNoMatch(s: string, afterLower: bool)
    requires NoGluedAnd(s, afterLower)
    ensures SplitGluedAnd(s, afterLower) == s
  {
    if s != [] {
      var t := s[1..];
      forall i | 0 < i < |t| ensures t[i..] == s[i + 1..] && t[i - 1] == s[i] { }
      SplitGluedAndNoMatch(t, IsLower(s[0]));
    }
  }

  /** Pass 3 on one character: a space goes in front of a capital exactly
      when the character before it is not whitespace. */
  lemma SplitCamelOne(c: char, afterSpace: bool)
    ensures SplitCamel([c], afterSpace) == if IsUpper(c) && !afterSpace then [' ', c] else [c]
  {
    assert [c][1..] == [];
  }

  /** Pass 3 works character by character: on a concatenation it is the
      pass on each part, the second part looking behind at the last
      character of the first. */
  lemma {:induction false} SplitCamelConcat(p: string, q: string, afterSpace: bool)
    requires p != []
    ensures SplitCamel(p + q, afterSpace) == SplitCamel(p, afterSpace) + SplitCamel(q, IsSpace(p[|p| - 1]))
  {
    assert (p + q)[0] == p[0] && (p + q)[1..] == p[1..] + q;
    if |p| == 1 {
      assert p[1..] == [] && p[1..] + q == q;
    } else {
      SplitCamelConcat(p[1..], q, IsSpace(p[0]));
      assert p[1..][|p[1..]| - 1] == p[|p| - 1];
      var h := if IsUpper(p[0]) && !afterSpace then [' ', p[0]] else [p[0]];
      assert h + (SplitCamel(p[1..], IsSpace(p[0])) + SplitCamel(q, IsSpace(p[|p| - 1])))
          == h + SplitCamel(p[1..], IsSpace(p[0])) + SplitCamel(q, IsSpace(p[|p| - 1]));
    }
  }

  /** Pass 4 on one character: whitespace becomes a space unless a run was
      already replaced; anything else stays. */
  lemma CollapseSpaceOne(c: char, inRun: bool)
    ensures CollapseSpace([c], inRun) == if !IsSpace(c) then [c] else if inRun then [] else [' ']
  {
    assert [c][1..] == [];
  }

  /** Pass 4 works character by character, the second part knowing whether
      the first ended inside a whitespace run. */
  lemma {:induction false} CollapseSpaceConcat(p: string, q: string, inRun: bool)
    requires p != []
    ensures CollapseSpace(p + q, inRun) == CollapseSpace(p, inRun) + CollapseSpace(q, IsSpace(p[|p| - 1]))
  {
    assert (p + q)[0] == p[0] && (p + q)[1..] == p[1..] + q;
    if |p| == 1 {
      assert p[1..] == [] && p[1..] + q == q;
    } else {
      CollapseSpaceConcat(p[1..], q, IsSpace(p[0]));
      assert p[1..][|p[1..]| - 1] == p[|p| - 1];
      var h := if IsSpace(p[0]) then (if inRun then [] else [' ']) else [p[0]];
      assert h + (CollapseSpace(p[1..], IsSpace(p[0])) + CollapseSpace(q, IsSpace(p[|p| - 1])))
          == h + CollapseSpace(p[1..], IsSpace(p[0])) + CollapseSpace(q, IsSpace(p[|p| - 1]));
    }
  }

  /** A whitespace run becomes one space, or nothing when it continues a
      run already replaced. */
  lemma {:induction false} CollapseSpaceRun(w: string, inRun: bool)
    requires w != [] && forall i :: 0 <= i < |w| ==> IsSpace(w[i])
    ensures CollapseSpace(w, inRun) == if inRun then [] else [' ']
  {
    if |w| > 1 {
      CollapseSpaceRun(w[1..], true);
    }
  }

  /** A whitespace run behind a non-space becomes exactly one space, and
      the text on either side is collapsed as before. */
  lemma CollapseSpaceGap(p: string, w: string, q: string, inRun: bool)
    requires p != [] && !IsSpace(p[|p| - 1])
    requires w != [] && forall i :: 0 <= i < |w| ==> IsSpace(w[i])
    ensures CollapseSpace(p + w + q, inRun) == CollapseSpace(p, inRun) + " " + CollapseSpace(q, true)
  {
    CollapseSpaceConcat(p + w, q, inRun);
    CollapseSpaceConcat(p, w, inRun);
    CollapseSpaceRun(w, false);
    assert (p + w)[|p + w| - 1] == w[|w| - 1];
  }

  // ---------------------------------------------------------------------
  // Glued "and"
  // ---------------------------------------------------------------------

  /** A lowercase letter, `and`, then a capital: pass 2 splits exactly there,
      and the text on either side is scanned as if on its own. */
  lemma {:induction false} SplitGluedAndAt(p: string, q: string, afterLower: bool)
    requires if p == [] then afterLower else IsLower(p[|p| - 1])
    requires q != [] && IsUpper(q[0])
    ensures SplitGluedAnd(p + "and" + q, afterLower)
         == SplitGluedAnd(p, afterLower) + " and " + SplitGluedAnd(q, true)
  {
    var w := "and" + q;
    var s := p + w;
    assert p + "and" + q == s;
    if p == [] {
      assert s == w;
      GluedAndAtStart(q, afterLower);
    } else if GluedAnd(p, afterLower) {
      assert s[0] == p[0] && s[1] == p[1] && s[2] == p[2] && s[3] == p[3];
      assert GluedAnd(s, afterLower);
      assert s[3..] == p[3..] + w == p[3..] + "and" + q;
      SplitGluedAndAt(p[3..], q, true);
      Regroup(" and ", SplitGluedAnd(p[3..], true), " and ", SplitGluedAnd(q, true));
    } else {
      assert !GluedAnd(s, afterLower) by {
        if |p| >= 4 {
          assert s[0] == p[0] && s[1] == p[1] && s[2] == p[2] && s[3] == p[3];
        } else {
          assert s[|p|] == 'a';
        }
      }
      assert s[1..] == p[1..] + w == p[1..] + "and" + q;
      SplitGluedAndAt(p[1..], q, IsLower(p[0]));
      Regroup([p[0]], SplitGluedAnd(p[1..], IsLower(p[0])), " and ", SplitGluedAnd(q, true));
    }
  }

  /** Concatenation is associative: the form the recursive step needs. */
  lemma Regroup(a: string, b: string, c: string, d: string)
    ensures a + (b + c + d) == a + b + c + d
  {
  }

  /** `and` then a capital, right after a lowercase letter: split. */
  lemma GluedAndAtStart(q: string, afterLower: bool)
    requires afterLower && q != [] && IsUpper(q[0])
    ensures SplitGluedAnd("and" + q, afterLower) == " and " + SplitGluedAnd(q, true)
  {
    var s := "and" + q;
    assert s[3] == q[0] && s[3..] == q;
  }

  /** A capitalised word: a capital followed by lowercase letters. */
  predicate Word(w: string) {
    |w| > 0 && IsUpper(w[0]) && forall i :: 0 < i < |w| ==> IsLower(w[i])
  }

  /** Two capitalised words glued by `and` come out as three words. */
  lemma GluedAndSeparated(a: string, b: string)
    requires Word(a) && |a| >= 2 && Word(b)
    ensures TidyName(Str(a + "and" + b)) == Str(a + " and " + b)
  {
    var s := a + "and" + b;
    var t := a + " and " + b;
    GluedWordsPass2(a, b);
    GluedWordsNoSeparator(a, b);
    ReplaceSeparatorsNoop(s);
    ThreeWordsTidy(a, b);
    ReplaceSeparatorsNoop(t);
    SplitGluedAndNoop(t, false);
    TidyFixesTidy(t);
  }

  /** Pass 2 on two glued words splits them, and nothing else. */
  lemma GluedWordsPass2(a: string, b: string)
    requires Word(a) && |a| >= 2 && Word(b)
    ensures SplitGluedAnd(a + "and" + b, false) == a + " and " + b
  {
    assert CapsAfterSpace(a, true) && CapsAfterSpace(b, true);
    SplitGluedAndNoop(a, false);
    SplitGluedAndNoop(b, true);
    SplitGluedAndAt(a, b, false);
  }

  /** Two words glued by `and` hold no `_` or `-`. */
  lemma GluedWordsNoSeparator(a: string, b: string)
    requires Word(a) && Word(b)
    ensures NoSeparator(a + "and" + b)
  {
    var s := a + "and" + b;
    forall i | 0 <= i < |s| ensures s[i] != '_' && s[i] != '-' {
      if i < |a| { assert s[i] == a[i]; }
      else if i >= |a| + 3 { assert s[i] == b[i - |a| - 3]; }
    }
  }

  lemma ThreeWordsTidy(a: string, b: string)
    requires Word(a) && Word(b)
    ensures IsTidy(a + " and " + b)
  {
    var t := a + " and " + b;
    var n := |a|;
    forall i | 0 <= i < |t|
      ensures i < n ==> t[i] == a[i]
      ensures n + 5 <= i ==> t[i] == b[i - n - 5]
      ensures n <= i < n + 5 ==> t[i] == " and "[i - n]
    { }
    assert t[0] == a[0] && t[|t| - 1] == b[|b| - 1];
  }

  /** "JammuandKashmir" becomes "Jammu and Kashmir". */
  lemma JammuAndKashmir()
    ensures TidyName(Str("JammuandKashmir")) == Str("Jammu and Kashmir")
  {
    var a, b := "Jammu", "Kashmir";
    assert a + "and" + b == "JammuandKashmir";
    assert a + " and " + b == "Jammu and Kashmir";
    GluedAndSeparated(a, b);
  }

  /** Two capitalised words with one space between them form a tidy name. */
  lemma TwoWordsTidy(a: string, b: string)
    requires Word(a) && Word(b)
    ensures IsTidy(a + " " + b)
  {
    var t := a + " " + b;
    var n := |a|;
    forall i | 0 <= i < |t|
      ensures i < n ==> t[i] == a[i]
      ensures n + 1 <= i ==> t[i] == b[i - n - 1]
      ensures i == n ==> t[i] == ' '
    { }
    assert t[0] == a[0] && t[|t| - 1] == b[|b| - 1];
  }

  /** "Madhya Pradesh" is already tidy and comes back unchanged. */
  lemma MadhyaPradeshUnchanged()
    ensures TidyName(Str("Madhya Pradesh")) == Str("Madhya Pradesh")
  {
    var a, b := "Madhya", "Pradesh";
    assert a + " " + b == "Madhya Pradesh";
    assert Word(a) && Word(b);
    TwoWordsTidy(a, b);
    TidyFixesTidy(a + " " + b);
  }

  // ---------------------------------------------------------------------
  // Words joined by separators stay apart
  // ---------------------------------------------------------------------

  /** A word of lowercase letters, such as `and` or `of`. */
  predicate LowerWord(m: string) {
    |m| > 0 && forall i :: 0 <= i < |m| ==> IsLower(m[i])
  }

  /** A non-empty run of `_`, `-` and whitespace. */
  predicate Separators(x: string) {
    |x| > 0 && forall i :: 0 <= i < |x| ==> x[i] == '_' || x[i] == '-' || IsSpace(x[i])
  }

  /** Words joined by runs of separators come out joined by single spaces:
      no word is glued to its neighbour and none is split. */
  lemma WordsThroughSeparators(a: string, x: string, m: string, y: string, b: string)
    requires Word(a) && LowerWord(m) && Word(b) && Separators(x) && Separators(y)
    ensures Tidy(a + x + m + y + b) == a + " " + m + " " + b
  {
    var xs, ys := ReplaceSeparators(x), ReplaceSeparators(y);
    WordsPass1(a, x, m, y, b);
    WordsPass2(a, xs, m, ys, b);
    WordsPass3(a, xs, m, ys, b);
    WordsPass4(a, xs, m, ys, b);
    WordsStrip(a, m, b);
  }

  lemma ReplaceSeparatorsConcat(p: string, q: string)
    ensures ReplaceSeparators(p + q) == ReplaceSeparators(p) + ReplaceSeparators(q)
  {
    var l, r := ReplaceSeparators(p + q), ReplaceSeparators(p) + ReplaceSeparators(q);
    forall i | 0 <= i < |l| ensures l[i] == r[i] {
      if i < |p| { assert (p + q)[i] == p[i]; } else { assert (p + q)[i] == q[i - |p|]; }
    }
  }

  /** Pass 1 keeps the words and turns each separator run into whitespace. */
  lemma WordsPass1(a: string, x: string, m: string, y: string, b: string)
    requires Word(a) && LowerWord(m) && Word(b)
    ensures ReplaceSeparators(a + x + m + y + b)
         == a + ReplaceSeparators(x) + m + ReplaceSeparators(y) + b
  {
    ReplaceSeparatorsConcat(a + x + m + y, b);
    ReplaceSeparatorsConcat(a + x + m, y);
    ReplaceSeparatorsConcat(a + x, m);
    ReplaceSeparatorsConcat(a, x);
    assert NoSeparator(a) && NoSeparator(m) && NoSeparator(b);
    ReplaceSeparatorsNoop(a);
    ReplaceSeparatorsNoop(m);
    ReplaceSeparatorsNoop(b);
  }

  /** Two parts each with their capitals after whitespace make a whole
      with that property. */
  lemma CapsAfterSpaceConcat(p: string, q: string, before: bool)
    requires p != [] && CapsAfterSpace(p, before) && CapsAfterSpace(q, IsSpace(p[|p| - 1]))
    ensures CapsAfterSpace(p + q, before)
  {
    var s := p + q;
    forall i, j | 0 <= i && j == i + 1 < |s| && IsUpper(s[j]) ensures IsSpace(s[i]) {
      if j < |p| {
        assert s[i] == p[i] && s[j] == p[j];
      } else if j == |p| {
        assert s[i] == p[|p| - 1] && s[j] == q[0];
      } else {
        assert s[i] == q[i - |p|] && s[j] == q[j - |p|];
      }
    }
  }

  /** In words joined by whitespace every capital starts a word. */
  lemma WordsCaps(a: string, xs: string, m: string, ys: string, b: string)
    requires Word(a) && LowerWord(m) && Word(b)
    requires |xs| > 0 && forall i :: 0 <= i < |xs| ==> IsSpace(xs[i])
    requires |ys| > 0 && forall i :: 0 <= i < |ys| ==> IsSpace(ys[i])
    ensures CapsAfterSpace(a + xs + m + ys + b, true)
  {
    assert CapsAfterSpace(a, true) && CapsAfterSpace(m, true) && CapsAfterSpace(b, true);
    assert CapsAfterSpace(xs, false) && CapsAfterSpace(ys, false);
    CapsAfterSpaceConcat(a, xs, true);
    assert (a + xs)[|a + xs| - 1] == xs[|xs| - 1];
    CapsAfterSpaceConcat(a + xs, m, true);
    assert (a + xs + m)[|a + xs + m| - 1] == m[|m| - 1];
    CapsAfterSpaceConcat(a + xs + m, ys, true);
    assert (a + xs + m + ys)[|a + xs + m + ys| - 1] == ys[|ys| - 1];
    CapsAfterSpaceConcat(a + xs + m + ys, b, true);
  }

  /** Pass 2 finds no glued `and` between words joined by whitespace. */
  lemma WordsPass2(a: string, xs: string, m: string, ys: string, b: string)
    requires Word(a) && LowerWord(m) && Word(b)
    requires |xs| > 0 && forall i :: 0 <= i < |xs| ==> IsSpace(xs[i])
    requires |ys| > 0 && forall i :: 0 <= i < |ys| ==> IsSpace(ys[i])
    ensures SplitGluedAnd(a + xs + m + ys + b, false) == a + xs + m + ys + b
  {
    WordsCaps(a, xs, m, ys, b);
    SplitGluedAndNoop(a + xs + m + ys + b, false);
  }

  /** Pass 3 puts a space only in front of the leading capital. */
  lemma WordsPass3(a: string, xs: string, m: string, ys: string, b: string)
    requires Word(a) && LowerWord(m) && Word(b)
    requires |xs| > 0 && forall i :: 0 <= i < |xs| ==> IsSpace(xs[i])
    requires |ys| > 0 && forall i :: 0 <= i < |ys| ==> IsSpace(ys[i])
    ensures SplitCamel(a + xs + m + ys + b, false) == " " + (a + xs + m + ys + b)
  {
    var u := a + xs + m + ys + b;
    WordsCaps(a, xs, m, ys, b);
    assert u[0] == a[0];
    SplitCamelLeadingCap(u);
  }

  /** When every later capital follows whitespace, pass 3 only puts a space
      in front of a leading capital. */
  lemma SplitCamelLeadingCap(u: string)
    requires u != [] && IsUpper(u[0]) && CapsAfterSpace(u, true)
    ensures SplitCamel(u, false) == " " + u
  {
    assert !IsSpace(u[0]);
    CapsAfterSpaceTail(u, true);
    SplitCamelNoop(u[1..], false);
    assert u == [u[0]] + u[1..];
  }

  /** Pass 4 turns each whitespace run between the words into one space. */
  lemma WordsPass4(a: string, xs: string, m: string, ys: string, b: string)
    requires Word(a) && LowerWord(m) && Word(b)
    requires |xs| > 0 && forall i :: 0 <= i < |xs| ==> IsSpace(xs[i])
    requires |ys| > 0 && forall i :: 0 <= i < |ys| ==> IsSpace(ys[i])
    ensures CollapseSpace(" " + (a + xs + m + ys + b), false) == " " + (a + " " + m + " " + b)
  {
    CollapseSpaceConcat(" ", a + xs + m + ys + b, false);
    CollapseSpaceOne(' ', false);
    WordsCollapse(a, xs, m, ys, b);
  }

  lemma WordsCollapse(a: string, xs: string, m: string, ys: string, b: string)
    requires Word(a) && LowerWord(m) && Word(b)
    requires |xs| > 0 && forall i :: 0 <= i < |xs| ==> IsSpace(xs[i])
    requires |ys| > 0 && forall i :: 0 <= i < |ys| ==> IsSpace(ys[i])
    ensures CollapseSpace(a + xs + m + ys + b, true) == a + " " + m + " " + b
  {
    WordHasNoSpace(a);
    WordHasNoSpace(m);
    WordHasNoSpace(b);
    CollapseSpaceNoop(a, true);
    CollapseAfterWord(a, xs);
    LastOf(a, xs);
    CollapseAfterRun(a + xs, m);
    LastOf(a + xs, m);
    CollapseAfterWord(a + xs + m, ys);
    LastOf(a + xs + m, ys);
    CollapseAfterRun(a + xs + m + ys, b);
  }

  /** A word, capitalised or not, holds no whitespace. */
  lemma WordHasNoSpace(w: string)
    requires Word(w) || LowerWord(w)
    ensures w != [] && !IsSpace(w[0]) && !IsSpace(w[|w| - 1]) && SingleSpaced(w)
  {
    forall i | 0 <= i < |w| ensures !IsSpace(w[i]) {
      assert IsUpper(w[i]) || IsLower(w[i]);
    }
  }

  /** A whitespace run after a non-space character becomes one space. */
  lemma CollapseAfterWord(p: string, w: string)
    requires p != [] && !IsSpace(p[|p| - 1])
    requires |w| > 0 && forall i :: 0 <= i < |w| ==> IsSpace(w[i])
    ensures CollapseSpace(p + w, true) == CollapseSpace(p, true) + " "
  {
    CollapseSpaceConcat(p, w, true);
    CollapseSpaceRun(w, false);
  }

  /** Text with no whitespace run of its own, after a whitespace run, is kept. */
  lemma CollapseAfterRun(p: string, m: string)
    requires p != [] && IsSpace(p[|p| - 1])
    requires m != [] && !IsSpace(m[0]) && SingleSpaced(m)
    ensures CollapseSpace(p + m, true) == CollapseSpace(p, true) + m
  {
    CollapseSpaceConcat(p, m, true);
    CollapseSpaceNoop(m, true);
  }

  /** The last character of `p + q`, for a non-empty `q`. */
  lemma LastOf(p: string, q: string)
    requires q != []
    ensures (p + q)[|p + q| - 1] == q[|q| - 1]
  {
  }

  /** Stripping drops the leading space and nothing else. */
  lemma WordsStrip(a: string, m: string, b: string)
    requires Word(a) && LowerWord(m) && Word(b)
    ensures Strip(" " + (a + " " + m + " " + b)) == a + " " + m + " " + b
  {
    var t := a + " " + m + " " + b;
    assert t[0] == a[0] && t[|t| - 1] == b[|b| - 1];
    StripLeadingSpace(t);
  }

  /** One space in front of a trimmed string is all that `strip` removes. */
  lemma StripLeadingSpace(t: string)
    requires Trimmed(t)
    ensures Strip(" " + t) == t
  {
    var s := " " + t;
    assert IsSpace(s[0]) && s[1..] == t;
    StripTrimmed(t);
  }

  /** "Daman_and__Diu" becomes "Daman and Diu". */
  lemma DamanAndDiu()
    ensures TidyName(Str("Daman_and__Diu")) == Str("Daman and Diu")
  {
    var a, x, m, y, b := "Daman", "_", "and", "__", "Diu";
    assert a + x + m + y + b == "Daman_and__Diu";
    assert a + " " + m + " " + b == "Daman and Diu";
    assert Word(a) && LowerWord(m) && Word(b) && Separators(x) && Separators(y);
    WordsThroughSeparators(a, x, m, y, b);
  }

  // ---------------------------------------------------------------------
  // Only separators change
  // ---------------------------------------------------------------------

  /** The characters of `s` with every whitespace, `_` and `-` deleted. */
  function Letters(s: string): string {
    if s == [] then []
    else if IsSpace(s[0]) || s[0] == '_' || s[0] == '-' then Letters(s[1..])
    else [s[0]] + Letters(s[1..])
  }

  lemma {:induction false} LettersConcat(a: string, b: string)
    ensures Letters(a + b) == Letters(a) + Letters(b)
  {
    if a == [] {
      assert a + b == b;
    } else {
      assert (a + b)[0] == a[0] && (a + b)[1..] == a[1..] + b;
      LettersConcat(a[1..], b);
    }
  }

  lemma {:induction false} ReplaceSeparatorsLetters(s: string)
    ensures Letters(ReplaceSeparators(s)) == Letters(s)
  {
    if s != [] {
      ReplaceSeparatorsLetters(s[1..]);
      var h := if s[0] == '_' || s[0] == '-' then ' ' else s[0];
      LettersConcat([h], ReplaceSeparators(s[1..]));
    }
  }

  lemma {:induction false} SplitGluedAndLetters(s: string, afterLower: bool)
    ensures Letters(SplitGluedAnd(s, afterLower)) == Letters(s)
  {
    if GluedAnd(s, afterLower) {
      SplitGluedAndLetters(s[3..], true);
      var w := s[..3];
      assert " and " == [' '] + w + [' '];
      LettersConcat(" and ", SplitGluedAnd(s[3..], true));
      assert s == w + s[3..];
      LettersConcat(w, s[3..]);
      LettersOfAnd(w);
    } else if s != [] {
      SplitGluedAndLetters(s[1..], IsLower(s[0]));
      LettersConcat([s[0]], SplitGluedAnd(s[1..], IsLower(s[0])));
    }
  }

  /** `and`, with or without the spaces pass 2 puts around it, keeps
      its three letters. */
  lemma LettersOfAnd(w: string)
    requires |w| == 3 && w[0] == 'a' && w[1] == 'n' && w[2] == 'd'
    ensures Letters(w) == w && Letters([' '] + w + [' ']) == w
  {
    LettersPlain(w);
    assert [' '] + w + [' '] == [' '] + (w + [' ']);
    assert (w + [' '])[1..] == w[1..] + [' '];
    LettersConcat(w, [' ']);
  }

  /** A string with no separator in it is its own letters. */
  lemma {:induction false} LettersPlain(s: string)
    requires forall i :: 0 <= i < |s| ==> !IsSpace(s[i]) && s[i] != '_' && s[i] != '-'
    ensures Letters(s) == s
  {
    if s != [] {
      LettersPlain(s[1..]);
    }
  }

  lemma {:induction false} SplitCamelLetters(s: string, afterSpace: bool)
    ensures Letters(SplitCamel(s, afterSpace)) == Letters(s)
  {
    if s != [] {
      SplitCamelLetters(s[1..], IsSpace(s[0]));
      var h := if IsUpper(s[0]) && !afterSpace then [' ', s[0]] else [s[0]];
      LettersConcat(h, SplitCamel(s[1..], IsSpace(s[0])));
      assert Letters(h) == Letters([s[0]]);
    }
  }

  lemma {:induction false} CollapseSpaceLetters(s: string, inRun: bool)
    ensures Letters(CollapseSpace(s, inRun)) == Letters(s)
  {
    if s != [] {
      CollapseSpaceLetters(s[1..], IsSpace(s[0]));
      var h := if !IsSpace(s[0]) then [s[0]] else if inRun then [] else [' '];
      LettersConcat(h, CollapseSpace(s[1..], IsSpace(s[0])));
    }
  }

  /** `lstrip` drops only whitespace, so no letters. */
  lemma {:induction false} StripLeftLetters(s: string)
    ensures Letters(StripLeft(s)) == Letters(s)
  {
    if s != [] && IsSpace(s[0]) {
      StripLeftLetters(s[1..]);
    }
  }

  /** `rstrip` drops only whitespace, so no letters. */
  lemma {:induction false} StripRightLetters(s: string)
    ensures Letters(StripRight(s)) == Letters(s)
  {
    if s != [] && IsSpace(s[|s| - 1]) {
      var init := s[..|s| - 1];
      StripRightLetters(init);
      assert s == init + [s[|s| - 1]];
      LettersConcat(init, [s[|s| - 1]]);
    }
  }

  lemma StripLetters(s: string)
    ensures Letters(Strip(s)) == Letters(s)
  {
    StripLeftLetters(s);
    StripRightLetters(StripLeft(s));
  }

  /** Only separators change: with all whitespace, `_` and `-` deleted, the
      name before and after `tidy_name` is the same character sequence. */
  lemma TidyKeepsLetters(s: string)
    ensures Letters(Tidy(s)) == Letters(s)
  {
    var p1 := ReplaceSeparators(s);
    var p2 := SplitGluedAnd(p1, false);
    var p3 := SplitCamel(p2, false);
    ReplaceSeparatorsLetters(s);
    SplitGluedAndLetters(p1, false);
    SplitCamelLetters(p2, false);
    CollapseSpaceLetters(p3, false);
    StripLetters(CollapseSpace(p3, false));
  }
}
