/** Path normalisation in one buffer, against a stack of names that ".." pops. */
module PathNormal {

  // ------------------------------------------------------------------ the names in a text

  /** Where the name that ends a text starts. */
  function NameStart(d: string): (k: nat)
    ensures k <= |d| && (k == 0 || d[k - 1] == '/') && forall i :: k <= i < |d| ==> d[i] != '/'
  {
    if d == "" || d[|d| - 1] == '/' then |d| else NameStart(d[..|d| - 1])
  }

  /** The names in a path: its pieces between slashes, without the empty ones. */
  function Names(d: string): seq<string>
    decreases |d|
  {
    if d == "" then []
    else if d[|d| - 1] == '/' then Names(d[..|d| - 1])
    else
      var k := NameStart(d);
      Names(d[..k]) + [d[k..]]
  }

  predicate IsName(c: string) {
    c != "" && forall i :: 0 <= i < |c| ==> c[i] != '/'
  }

  lemma NameStartIs(d: string, k: nat)
    requires k <= |d| && (k == 0 || d[k - 1] == '/') && forall i :: k <= i < |d| ==> d[i] != '/'
    ensures NameStart(d) == k
  {
  }

  lemma NamesSnoc(d: string, c: string)
    requires IsName(c) && (d == "" || d[|d| - 1] == '/')
    ensures Names(d + c) == Names(d) + [c]
  {
    var t := d + c;
    assert t[|d|..] == c && t[..|d|] == d;
    assert forall i :: |d| <= i < |t| ==> t[i] == c[i - |d|];
    NameStartIs(t, |d|);
  }

  lemma {:induction false} NamesAreNames(d: string)
    ensures forall c :: c in Names(d) ==> IsName(c)
    decreases |d|
  {
    if d != "" {
      if d[|d| - 1] == '/' {
        NamesAreNames(d[..|d| - 1]);
      } else {
        NamesAreNames(d[..NameStart(d)]);
      }
    }
  }

  // ------------------------------------------------------------------ one component at a time

  /** Back to the slash before the last name, but not below `base`. */
  function Back(d: string, base: nat): (r: string)
    ensures |r| <= |d| && r == d[..|r|]
  {
    if |d| > base && d[|d| - 1] != '/' then Back(d[..|d| - 1], base) else d
  }

  /** What ".." does to the text so far: one character goes in any case. */
  function Chop(d: string, base: nat): (r: string)
    ensures |r| <= |d| && r == d[..|r|]
  {
    if |d| > base then Back(d[..|d| - 1], base) else d
  }

  /** The text with a name behind it. */
  function Push(d: string, c: string): string {
    if d == "" || d == "/" then d + c else d + "/" + c
  }

  function Step(d: string, base: nat, c: string): string {
    if c == "." then d else if c == ".." then Chop(d, base) else Push(d, c)
  }

  function Run(d: string, base: nat, cs: seq<string>): string
    decreases |cs|
  {
    if cs == [] then d else Step(Run(d, base, cs[..|cs| - 1]), base, cs[|cs| - 1])
  }

  /** What a stack of names does: "." nothing, ".." takes the top off if there is one, a name goes on top. */
  function StackStep(st: seq<string>, c: string): seq<string> {
    if c == "." then st else if c == ".." then (if st == [] then [] else st[..|st| - 1]) else st + [c]
  }

  function Stack(cs: seq<string>): seq<string>
    decreases |cs|
  {
    if cs == [] then [] else StackStep(Stack(cs[..|cs| - 1]), cs[|cs| - 1])
  }

  /** The text before any component: "/" for an absolute path, nothing for a relative one. */
  function Root(base: nat): string {
    if base == 1 then "/" else ""
  }

  /** What every text on the way looks like: rooted, and with a name right behind the root. */
  predicate Shaped(d: string, base: nat) {
    base <= 1 && |d| >= base && d[..base] == Root(base) && (|d| > base ==> d[base] != '/')
  }

  /** The guard of the case that goes wrong. */
  predicate EndsInTwoSlashes(d: string) {
    |d| >= 2 && d[|d| - 1] == '/' && d[|d| - 2] == '/'
  }

  lemma {:induction false} BackIs(d: string, base: nat)
    requires Shaped(d, base)
    ensures Back(d, base) == if NameStart(d) >= base then d[..NameStart(d)] else d[..base]
    ensures NameStart(d) >= base
    decreases |d|
  {
    if |d| > base && d[|d| - 1] != '/' {
      var e := d[..|d| - 1];
      assert e[..base] == d[..base];
      BackIs(e, base);
      NameStartIs(d, NameStart(e));
    } else if |d| == base {
      NameStartIs(d, base);
    }
  }

  lemma ShapedStep(d: string, base: nat, c: string)
    requires Shaped(d, base) && IsName(c)
    ensures Shaped(Step(d, base, c), base)
  {
    if c == ".." && |d| > base {
      var e := d[..|d| - 1];
      assert e[..base] == d[..base];
      BackIs(e, base);
      assert e[..NameStart(e)][..base] == d[..base];
    } else if c != "." && c != ".." {
      var p := Push(d, c);
      assert p[..base] == d[..base];
    }
  }

  /** A name goes on top. */
  lemma NamesPush(d: string, base: nat, c: string)
    requires Shaped(d, base) && IsName(c)
    ensures Names(Push(d, c)) == Names(d) + [c]
  {
    if d == "" || d == "/" {
      NamesSnoc(d, c);
    } else {
      assert d + "/" + c == (d + "/") + c;
      NamesSnoc(d + "/", c);
      assert (d + "/")[..|d|] == d;
    }
  }

  lemma {:induction false} NamesNonEmpty(d: string, base: nat)
    requires Shaped(d, base) && |d| > base
    ensures Names(d) != []
    decreases |d|
  {
    if d[|d| - 1] == '/' {
      var e := d[..|d| - 1];
      assert e[..base] == d[..base] && |e| > base;
      NamesNonEmpty(e, base);
    }
  }

  lemma {:induction false} ChopInName(d: string, base: nat)
    requires Shaped(d, base) && |d| > base && d[|d| - 1] != '/'
    ensures Names(Chop(d, base)) + [d[NameStart(d)..]] == Names(d)
  {
    hide Back, NameStart;
    var e := d[..|d| - 1];
    assert e[..base] == d[..base];
    BackIs(e, base);
    NameStartIs(d, NameStart(e));
    assert e[..NameStart(e)] == d[..NameStart(d)];
    assert Chop(d, base) == d[..NameStart(d)];
  }

  lemma {:induction false} ChopAfterSlash(d: string, base: nat)
    requires Shaped(d, base) && |d| > base && d[|d| - 1] == '/'
    ensures var e := d[..|d| - 1];
            Chop(d, base) == e[..NameStart(e)] && Names(d) == Names(e) && |e| > base
  {
    var e := d[..|d| - 1];
    assert e[..base] == d[..base];
    BackIs(e, base);
  }

  /** ".." takes the last name off, unless two slashes end the text: then it takes off a slash and no name. */
  lemma {:induction false} NamesChop(d: string, base: nat)
    requires Shaped(d, base)
    ensures !EndsInTwoSlashes(d) ==> Names(Chop(d, base)) == StackStep(Names(d), "..")
    ensures EndsInTwoSlashes(d) ==> Names(Chop(d, base)) == Names(d) != []
  {
    hide Chop, Shaped;
    if |d| <= base {
      AtRoot(d, base);
    } else if d[|d| - 1] != '/' {
      ChopInName(d, base);
      assert Names(d)[..|Names(d)| - 1] == Names(Chop(d, base));
    } else {
      ChopAfterSlash(d, base);
      NamesNonEmpty(d, base);
      var e := d[..|d| - 1];
      if e[|e| - 1] == '/' {
        NameStartIs(e, |e|);
        assert e[..|e|] == e;
      } else {
        assert Names(e)[..|Names(e)| - 1] == Names(e[..NameStart(e)]);
      }
    }
  }

  lemma AtRoot(d: string, base: nat)
    requires Shaped(d, base) && |d| <= base
    ensures d == Root(base) && Names(d) == [] && Chop(d, base) == d && !EndsInTwoSlashes(d)
  {
    assert d[..base] == d;
    assert Names("/") == Names("/"[..0]);
  }

  // ------------------------------------------------------------------------- whole runs

  predicate AreNames(cs: seq<string>) {
    forall i :: 0 <= i < |cs| ==> IsName(cs[i])
  }

  lemma {:induction false} ShapedRun(base: nat, cs: seq<string>)
    requires base <= 1 && AreNames(cs)
    ensures Shaped(Run(Root(base), base, cs), base)
    decreases |cs|
  {
    if cs != [] {
      var n := |cs| - 1;
      ShapedRun(base, cs[..n]);
      ShapedStep(Run(Root(base), base, cs[..n]), base, cs[n]);
    }
  }

  /** After every component, the names in the text are the stack. */
  predicate AgreesThroughout(base: nat, cs: seq<string>)
    decreases |cs|
  {
    (cs == [] || AgreesThroughout(base, cs[..|cs| - 1])) && Names(Run(Root(base), base, cs)) == Stack(cs)
  }

  /** No ".." arrives while two slashes end the text. */
  predicate NeverPopsTwoSlashes(base: nat, cs: seq<string>)
    decreases |cs|
  {
    cs == [] ||
    (var n := |cs| - 1;
     && NeverPopsTwoSlashes(base, cs[..n])
     && (cs[n] == ".." ==> !EndsInTwoSlashes(Run(Root(base), base, cs[..n]))))
  }

  /** Exactly when the text and the stack agree all the way. */
  lemma {:induction false} AgreesIffNeverPopsTwoSlashes(base: nat, cs: seq<string>)
    requires base <= 1 && AreNames(cs)
    ensures AgreesThroughout(base, cs) <==> NeverPopsTwoSlashes(base, cs)
    decreases |cs|
  {
    hide Names, EndsInTwoSlashes, Shaped, Chop, Push;
    if cs == [] {
      AtRoot(Root(base), base);
    } else {
      var n := |cs| - 1;
      AgreesIffNeverPopsTwoSlashes(base, cs[..n]);
      ShapedRun(base, cs[..n]);
      var d := Run(Root(base), base, cs[..n]);
      if cs[n] == ".." {
        NamesChop(d, base);
        assert Names(d) != [] ==> |StackStep(Names(d), "..")| < |Names(d)|;
      } else if cs[n] != "." {
        NamesPush(d, base, cs[n]);
      }
    }
  }

  // ------------------------------------------------- the same condition, on the source alone

  /** What the latest component was that counts: a name or nothing, or a ".." that left something behind. */
  datatype Latest = Fresh | AfterPop | AfterLatePop

  /**
   * Reading components only: for every name on the stack, whether it was entered directly after a ".."
   * that left something (it is late), and whether the latest component was such a "..", having popped a
   * late name or another. A "." never counts.
   */
  datatype Marks = Marks(late: seq<bool>, latest: Latest)

  function MarkStep(m: Marks, c: string): Marks {
    if c == "." then m
    else if c == ".." then
      if m.late == [] then m
      else
        var rest := m.late[..|m.late| - 1];
        Marks(rest, if rest == [] then Fresh else if m.late[|m.late| - 1] then AfterLatePop else AfterPop)
    else Marks(m.late + [m.latest != Fresh], Fresh)
  }

  function MarksOf(cs: seq<string>): Marks
    decreases |cs|
  {
    if cs == [] then Marks([], Fresh) else MarkStep(MarksOf(cs[..|cs| - 1]), cs[|cs| - 1])
  }

  /**
   * No ".." comes directly after a ".." that popped a late name: one that had itself been entered directly
   * after a ".." leaving something on the stack.
   */
  predicate NoPopAfterLatePop(cs: seq<string>)
    decreases |cs|
  {
    cs == [] ||
    (var n := |cs| - 1;
     NoPopAfterLatePop(cs[..n]) && (cs[n] == ".." ==> MarksOf(cs[..n]).latest != AfterLatePop))
  }

  function Strip(d: string, base: nat): (r: string)
    ensures |r| <= |d| && r == d[..|r|]
  {
    if |d| > base && d[|d| - 1] == '/' then Strip(d[..|d| - 1], base) else d
  }

  /** Which names of a text are set off by two slashes. */
  function SetOff(d: string, base: nat): seq<bool>
    decreases |d|
  {
    if |d| <= base || d[|d| - 1] == '/' then []
    else
      var k := NameStart(d);
      SetOff(Strip(d[..k], base), base) + [EndsInTwoSlashes(d[..k])]
  }

  function LatestOf(d: string, base: nat): Latest {
    if |d| <= base || d[|d| - 1] != '/' then Fresh else if EndsInTwoSlashes(d) then AfterLatePop else AfterPop
  }

  predicate Matches(d: string, base: nat, m: Marks) {
    Shaped(d, base) && SetOff(Strip(d, base), base) == m.late && LatestOf(d, base) == m.latest
  }

  lemma {:induction false} StripShaped(d: string, base: nat)
    requires Shaped(d, base)
    ensures Shaped(Strip(d, base), base) && (|d| > base ==> |Strip(d, base)| > base)
    ensures |d| > base ==> SetOff(Strip(d, base), base) != []
    decreases |d|
  {
    if |d| > base && d[|d| - 1] == '/' {
      var e := d[..|d| - 1];
      assert e[..base] == d[..base] && |e| > base;
      StripShaped(e, base);
    }
  }

  lemma PushMatches(d: string, base: nat, m: Marks, c: string)
    requires Matches(d, base, m) && IsName(c) && c != "." && c != ".."
    ensures Matches(Push(d, c), base, MarkStep(m, c))
  {
    hide Shaped, NameStart, EndsInTwoSlashes, Strip;
    ShapedStep(d, base, c);
    PushParts(d, base, c);
    var p := Push(d, c);
    var e := p[..|p| - |c|];
    NameStartIs(p, |e|);
    StripSlash(d, e, base);
    StripName(p, base);
  }

  lemma PushParts(d: string, base: nat, c: string)
    requires Shaped(d, base) && IsName(c)
    ensures var p := Push(d, c);
            && |p| >= |c| && |p| > base && p[|p| - 1] != '/'
            && (forall i :: |p| - |c| <= i < |p| ==> p[i] != '/')
            && p[..|p| - |c|] == (if |d| <= base then d else d + "/")
            && (|p| - |c| == 0 || p[|p| - |c| - 1] == '/')
  {
    hide IsName, Shaped;
    PushSplits(d, base, c);
    NameAtEnd(if |d| <= base then d else d + "/", c);
  }

  lemma PushSplits(d: string, base: nat, c: string)
    requires Shaped(d, base)
    ensures var e := if |d| <= base then d else d + "/";
            Push(d, c) == e + c && |e| >= base && (e == "" || e[|e| - 1] == '/')
  {
    if |d| <= base {
      AtRoot(d, base);
    }
  }

  lemma NameAtEnd(e: string, c: string)
    requires IsName(c)
    ensures var p := e + c;
            |c| > 0 && p[..|e|] == e && p[|p| - 1] != '/' && forall i :: |e| <= i < |p| ==> p[i] != '/'
  {
    var p := e + c;
    assert p[|p| - 1] == c[|c| - 1];
    assert forall i :: |e| <= i < |p| ==> p[i] == c[i - |e|];
  }

  lemma StripName(p: string, base: nat)
    requires |p| > base && p[|p| - 1] != '/'
    ensures Strip(p, base) == p && LatestOf(p, base) == Fresh
  {
  }

  lemma NotTwoSlashes(d: string)
    requires d != ""
    ensures d[|d| - 1] != '/' ==> !EndsInTwoSlashes(d)
    ensures EndsInTwoSlashes(d + "/") <==> d[|d| - 1] == '/'
  {
  }

  lemma StripOneSlash(d: string, base: nat)
    requires |d| >= base
    ensures Strip(d + "/", base) == Strip(d, base)
  {
    var e := d + "/";
    assert e[..|e| - 1] == d;
  }

  lemma StripSlash(d: string, e: string, base: nat)
    requires Shaped(d, base) && e == if |d| <= base then d else d + "/"
    ensures Strip(e, base) == Strip(d, base)
    ensures EndsInTwoSlashes(e) <==> LatestOf(d, base) != Fresh
  {
    hide Strip;
    if |d| <= base {
      AtRoot(d, base);
    } else {
      hide EndsInTwoSlashes, Shaped;
      StripOneSlash(d, base);
      NotTwoSlashes(d);
    }
  }

  /** The last name of a stripped text, and what its removal leaves. */
  lemma LastSetOff(e: string, base: nat)
    requires Shaped(e, base) && |e| > base && e[|e| - 1] != '/' && NameStart(e) >= base && Shaped(e[..NameStart(e)], base)
    ensures var f := e[..NameStart(e)];
            && SetOff(e, base) == SetOff(Strip(f, base), base) + [EndsInTwoSlashes(f)]
            && (SetOff(Strip(f, base), base) == [] <==> |f| <= base)
            && LatestOf(f, base) == if |f| <= base then Fresh else if EndsInTwoSlashes(f) then AfterLatePop else AfterPop
  {
    hide Shaped, EndsInTwoSlashes, Strip;
    var f := e[..NameStart(e)];
    StripShaped(f, base);
    if |f| > base {
      assert f[|f| - 1] == '/';
    } else {
      StripNothing(f, base);
    }
  }

  lemma StripNothing(f: string, base: nat)
    requires |f| <= base
    ensures Strip(f, base) == f
  {
  }

  lemma ChopMatches(d: string, base: nat, m: Marks)
    requires Matches(d, base, m) && m.latest != AfterLatePop
    ensures Matches(Chop(d, base), base, MarkStep(m, ".."))
  {
    hide Shaped, EndsInTwoSlashes, Strip, Chop, SetOff, NameStart;
    ShapedStep(d, base, "..");
    if |d| <= base {
      EmptyMarks(d, base);
    } else {
      StripShaped(d, base);
      NotTwoSlashes(d);
      var e := Strip(d, base);
      ChopStripped(d, base);
      LastSetOff(e, base);
      assert m.late[..|m.late| - 1] == SetOff(Strip(e[..NameStart(e)], base), base);
    }
  }

  lemma EmptyMarks(d: string, base: nat)
    requires Shaped(d, base) && |d| <= base
    ensures Chop(d, base) == d && SetOff(Strip(d, base), base) == []
  {
    AtRoot(d, base);
  }

  /** Unless two slashes end the text, ".." takes the last name off it, and what slash there is. */
  lemma {:induction false} ChopStripped(d: string, base: nat)
    requires Shaped(d, base) && |d| > base && !EndsInTwoSlashes(d)
    ensures var e := Strip(d, base);
            |e| > base && e[|e| - 1] != '/' && NameStart(e) >= base && Chop(d, base) == e[..NameStart(e)]
  {
    hide Chop, Back, NameStart, Shaped;
    var e := d[..|d| - 1];
    ShorterShaped(d, base);
    if d[|d| - 1] == '/' {
      ChopAfterSlash(d, base);
      BackIs(e, base);
      assert Strip(d, base) == Strip(e, base) == e;
    } else {
      BackIs(e, base);
      LastCharOfName(d, base);
    }
  }

  lemma ShorterShaped(d: string, base: nat)
    requires Shaped(d, base) && |d| > base
    ensures Shaped(d[..|d| - 1], base)
  {
    var e := d[..|d| - 1];
    assert e[..base] == d[..base];
  }

  lemma {:induction false} LastCharOfName(d: string, base: nat)
    requires |d| > base && d[|d| - 1] != '/' && Shaped(d, base)
    ensures NameStart(d) >= base && Chop(d, base) == d[..NameStart(d)]
  {
    hide NameStart, Back, Shaped;
    var e := d[..|d| - 1];
    ShorterShaped(d, base);
    BackIs(e, base);
    NameStartIs(d, NameStart(e));
    PrefixOfPrefix(d, NameStart(e));
  }

  lemma PrefixOfPrefix(d: string, k: nat)
    requires k < |d|
    ensures d[..|d| - 1][..k] == d[..k]
  {
  }

  /** As long as the source keeps the condition, the marks describe the text. */
  lemma {:induction false} RunMatches(base: nat, cs: seq<string>)
    requires base <= 1 && AreNames(cs) && NoPopAfterLatePop(cs)
    ensures Matches(Run(Root(base), base, cs), base, MarksOf(cs))
    decreases |cs|
  {
    hide Matches, Push, Chop;
    if cs == [] {
      RootMatches(base);
    } else {
      var n := |cs| - 1;
      RunMatches(base, cs[..n]);
      LatestMatches(Run(Root(base), base, cs[..n]), base, MarksOf(cs[..n]));
      if cs[n] == ".." {
        ChopMatches(Run(Root(base), base, cs[..n]), base, MarksOf(cs[..n]));
      } else if cs[n] != "." {
        PushMatches(Run(Root(base), base, cs[..n]), base, MarksOf(cs[..n]), cs[n]);
      }
    }
  }

  lemma RootMatches(base: nat)
    requires base <= 1
    ensures Matches(Root(base), base, Marks([], Fresh))
  {
  }

  lemma LatestMatches(d: string, base: nat, m: Marks)
    requires Matches(d, base, m)
    ensures m.latest == AfterLatePop <==> EndsInTwoSlashes(d)
  {
    if |d| <= base {
      AtRoot(d, base);
    }
  }

  /** The condition on the text and the one on the source are the same. */
  lemma {:induction false} ConditionOnSource(base: nat, cs: seq<string>)
    requires base <= 1 && AreNames(cs)
    ensures NeverPopsTwoSlashes(base, cs) <==> NoPopAfterLatePop(cs)
    decreases |cs|
  {
    hide Matches, EndsInTwoSlashes, Run, MarksOf;
    if cs != [] {
      var n := |cs| - 1;
      ConditionOnSource(base, cs[..n]);
      if NoPopAfterLatePop(cs[..n]) {
        RunMatches(base, cs[..n]);
        LatestMatches(Run(Root(base), base, cs[..n]), base, MarksOf(cs[..n]));
      }
    }
  }

  /**
   * The names in the text are the stack after every component of the source if and only if no ".." comes
   * directly after a ".." that popped a name entered directly after a ".." that left something.
   */
  lemma AgreesIffNoPopAfterLatePop(base: nat, cs: seq<string>)
    requires base <= 1 && AreNames(cs)
    ensures AgreesThroughout(base, cs) <==> NoPopAfterLatePop(cs)
  {
    AgreesIffNeverPopsTwoSlashes(base, cs);
    ConditionOnSource(base, cs);
  }

  /** Whatever the path, the names left over are among its components, and none of them is "." or "..". */
  lemma {:induction false} NoDotsLeft(base: nat, cs: seq<string>)
    requires base <= 1 && AreNames(cs)
    ensures forall c :: c in Names(Run(Root(base), base, cs)) ==> c in cs && c != "." && c != ".."
    decreases |cs|
  {
    hide Names, EndsInTwoSlashes, Shaped, Step;
    if cs == [] {
      AtRoot(Root(base), base);
    } else {
      var n := |cs| - 1;
      NoDotsLeft(base, cs[..n]);
      ShapedRun(base, cs[..n]);
      StepNames(Run(Root(base), base, cs[..n]), base, cs[n]);
      assert forall c :: c in cs[..n] ==> c in cs;
    }
  }

  lemma StepNames(d: string, base: nat, c: string)
    requires Shaped(d, base) && IsName(c)
    ensures forall x :: x in Names(Step(d, base, c)) ==> x in Names(d) || (x == c && c != "." && c != "..")
  {
    hide Names, Shaped, Chop, Push, EndsInTwoSlashes;
    if c == ".." {
      NamesChop(d, base);
      assert Names(d) != [] ==> forall x :: x in Names(d)[..|Names(d)| - 1] ==> x in Names(d);
    } else if c != "." {
      NamesPush(d, base, c);
    }
  }

  // -------------------------------------------------- a condition on the source alone

  /** Once a ".." has left something on the stack, no further name comes. */
  predicate NoNameAfterPop(cs: seq<string>) {
    forall i, j :: 0 <= i < j < |cs| && cs[i] == ".." && cs[j] != "." && cs[j] != ".." ==> Stack(cs[..i + 1]) == []
  }

  predicate NoDoubleSlash(d: string) {
    forall i :: 0 < i < |d| ==> d[i] != '/' || d[i - 1] != '/'
  }

  /** Some ".." among the components left something on the stack. */
  ghost predicate PopLeftSomething(cs: seq<string>) {
    exists i :: 0 <= i < |cs| && cs[i] == ".." && Stack(cs[..i + 1]) != []
  }

  lemma NoNameAfterPopInit(cs: seq<string>)
    requires NoNameAfterPop(cs) && cs != []
    ensures NoNameAfterPop(cs[..|cs| - 1])
    ensures PopLeftSomething(cs[..|cs| - 1]) ==> cs[|cs| - 1] == "." || cs[|cs| - 1] == ".."
  {
    var n := |cs| - 1;
    forall i, j | 0 <= i < j < n && cs[i] == ".." && cs[j] != "." && cs[j] != ".."
      ensures Stack(cs[..n][..i + 1]) == []
    {
      assert cs[..n][..i + 1] == cs[..i + 1];
    }
    if PopLeftSomething(cs[..n]) {
      var i :| 0 <= i < n && cs[..n][i] == ".." && Stack(cs[..n][..i + 1]) != [];
      assert cs[..n][..i + 1] == cs[..i + 1];
    }
  }

  lemma PopStays(cs: seq<string>)
    requires cs != [] && PopLeftSomething(cs[..|cs| - 1])
    ensures PopLeftSomething(cs)
  {
    var n := |cs| - 1;
    var i :| 0 <= i < n && cs[..n][i] == ".." && Stack(cs[..n][..i + 1]) != [];
    assert cs[..n][..i + 1] == cs[..i + 1];
  }

  /** Under that condition no two slashes ever meet, so the names in the result are the stack. */
  lemma {:induction false} StackWithoutLateNames(base: nat, cs: seq<string>)
    requires base <= 1 && AreNames(cs) && NoNameAfterPop(cs)
    ensures var d := Run(Root(base), base, cs);
            && Names(d) == Stack(cs) && NoDoubleSlash(d)
            && (|d| > base && d[|d| - 1] == '/' ==> PopLeftSomething(cs))
    decreases |cs|
  {
    hide Names, Chop, Push, PopLeftSomething, NoNameAfterPop;
    if cs == [] {
      AtRoot(Root(base), base);
    } else {
      var n := |cs| - 1;
      NoNameAfterPopInit(cs);
      StackWithoutLateNames(base, cs[..n]);
      ShapedRun(base, cs[..n]);
      var d := Run(Root(base), base, cs[..n]);
      if PopLeftSomething(cs[..n]) {
        PopStays(cs);
      }
      if cs[n] == ".." {
        PopKeeps(cs, d, base);
      } else if cs[n] != "." {
        NamesPush(d, base, cs[n]);
        PushKeeps(d, base, cs[n]);
      }
    }
  }

  lemma PushKeeps(d: string, base: nat, c: string)
    requires Shaped(d, base) && NoDoubleSlash(d) && IsName(c) && (|d| > base ==> d[|d| - 1] != '/')
    ensures var p := Push(d, c); NoDoubleSlash(p) && p != "" && p[|p| - 1] != '/'
  {
    var p := Push(d, c);
    assert p[|p| - 1] == c[|c| - 1];
  }

  lemma PopKeeps(cs: seq<string>, d: string, base: nat)
    requires cs != [] && cs[|cs| - 1] == ".." && Shaped(d, base) && NoDoubleSlash(d) && Names(d) == Stack(cs[..|cs| - 1])
    ensures var p := Chop(d, base);
            && NoDoubleSlash(p) && Names(p) == Stack(cs)
            && (|p| > base && p[|p| - 1] == '/' ==> PopLeftSomething(cs))
  {
    hide Names;
    NamesChop(d, base);
    var p := Chop(d, base);
    assert cs[..|cs|] == cs;
    if |p| > base {
      assert p[..base] == d[..base];
      NamesNonEmpty(p, base);
      assert Stack(cs[..|cs| - 1 + 1]) != [];
    }
  }

  // ------------------------------------------------------------------- where it goes wrong

  lemma RunSnoc(d: string, base: nat, cs: seq<string>, c: string)
    ensures Run(d, base, cs + [c]) == Step(Run(d, base, cs), base, c)
  {
    assert (cs + [c])[..|cs|] == cs;
  }

  lemma StackSnoc(cs: seq<string>, c: string)
    ensures Stack(cs + [c]) == StackStep(Stack(cs), c)
  {
    assert (cs + [c])[..|cs|] == cs;
  }

  /** A name entered after such a ".." is set off by two slashes: /a/b/../c becomes /a//c. */
  lemma DoubleSlashExample()
    ensures Run("/", 1, ["a", "b", "..", "c"]) == "/a//c"
  {
    RunSnoc("/", 1, [], "a");
    RunSnoc("/", 1, ["a"], "b");
    RunSnoc("/", 1, ["a", "b"], "..");
    RunSnoc("/", 1, ["a", "b", ".."], "c");
    assert ["a"] + ["b"] == ["a", "b"] && ["a", "b"] + [".."] == ["a", "b", ".."];
    assert ["a", "b", ".."] + ["c"] == ["a", "b", "..", "c"] && [] + ["a"] == ["a"];
    assert Push("/", "a") == "/a" && Push("/a", "b") == "/a/b" && Push("/a/", "c") == "/a//c";
    assert "/a/b"[..3] == "/a/";
  }

  /** And two more ".." then take off one name only: /a/b/../c/../.. keeps a, where the stack is empty. */
  lemma LostPopExample()
    ensures Run("/", 1, ["a", "b", "..", "c", "..", ".."]) == "/a/" && Stack(["a", "b", "..", "c", "..", ".."]) == []
  {
    hide Run, Stack;
    var cs := ["a", "b", "..", "c"];
    DoubleSlashExample();
    RunSnoc("/", 1, cs, "..");
    RunSnoc("/", 1, cs + [".."], "..");
    TwoPops();
    assert cs + [".."] + [".."] == ["a", "b", "..", "c", "..", ".."];
    StackOfExample();
  }

  lemma TwoPops()
    ensures Chop("/a//c", 1) == "/a//" && Chop("/a//", 1) == "/a/"
  {
    assert "/a//c"[..4] == "/a//" && "/a//"[..3] == "/a/";
  }

  lemma StackOfExample()
    ensures Stack(["a", "b", "..", "c", "..", ".."]) == []
  {
    hide Stack;
    var cs := ["a", "b", "..", "c"];
    assert [] + ["a"] == ["a"] && ["a"] + ["b"] == ["a", "b"] && ["a", "b"] + [".."] == ["a", "b", ".."];
    assert ["a", "b", ".."] + ["c"] == cs && cs + [".."] + [".."] == ["a", "b", "..", "c", "..", ".."];
    EmptyStack();
    StackSnoc([], "a");
    StackSnoc(["a"], "b");
    StackSnoc(["a", "b"], "..");
    StackSnoc(["a", "b", ".."], "c");
    StackSnoc(cs, "..");
    StackSnoc(cs + [".."], "..");
    assert ["a", "b"][..1] == ["a"] && ["a", "c"][..1] == ["a"] && ["a"][..0] == [];
  }

  lemma EmptyStack()
    ensures Stack([]) == []
  {
  }

  /**
   * For every source: the result is rooted as the source is, has no "." or ".." left, and follows the
   * stack of the source's names all the way if and only if the source keeps the condition above.
   */
  lemma NormalisedPath(src: string)
    ensures var base, cs := BaseOf(src), Names(src);
            var d := Run(Root(base), base, cs);
            && Shaped(d, base)
            && (forall c :: c in Names(d) ==> c in cs && c != "." && c != "..")
            && (AgreesThroughout(base, cs) <==> NoPopAfterLatePop(cs))
            && (NoPopAfterLatePop(cs) ==> Names(d) == Stack(cs))
  {
    hide Names, Run, Stack, NoPopAfterLatePop, Shaped;
    var base, cs := BaseOf(src), Names(src);
    NamesAreNames(src);
    ShapedRun(base, cs);
    NoDotsLeft(base, cs);
    AgreesIffNoPopAfterLatePop(base, cs);
  }

  // ------------------------------------------------------------------ the code, in one buffer

  /** Splitting from the front, as the code does: the names from `i` on. */
  function NamesFrom(s: string, i: nat): seq<string>
    requires i <= |s|
    decreases |s| - i
  {
    if i == |s| then []
    else if s[i] == '/' then NamesFrom(s, i + 1)
    else
      var e := SlashAt(s, i + 1);
      [s[i..e]] + NamesFrom(s, e)
  }

  function SlashAt(s: string, i: nat): (e: nat)
    requires i <= |s|
    ensures i <= e <= |s| && (e == |s| || s[e] == '/') && forall k :: i <= k < e ==> s[k] != '/'
    decreases |s| - i
  {
    if i == |s| || s[i] == '/' then i else SlashAt(s, i + 1)
  }

  lemma NamesSlash(d: string)
    ensures Names(d + "/") == Names(d)
  {
    assert (d + "/")[..|d|] == d;
  }

  /** Splitting from the front or from the back finds the same names. */
  lemma {:induction false} FrontIsBack(s: string, i: nat)
    requires i <= |s| && (i == 0 || i == |s| || s[i - 1] == '/' || s[i] == '/')
    ensures Names(s) == Names(s[..i]) + NamesFrom(s, i)
    decreases |s| - i
  {
    hide Names, SlashAt;
    if i == |s| {
      assert s[..i] == s;
    } else if s[i] == '/' {
      NamesSlash(s[..i]);
      assert s[..i + 1] == s[..i] + "/";
      FrontIsBack(s, i + 1);
    } else {
      var e := SlashAt(s, i + 1);
      NameTaken(s, i, e);
      FrontIsBack(s, e);
    }
  }

  lemma NameTaken(s: string, i: nat, e: nat)
    requires i < e <= |s| && (i == 0 || s[i - 1] == '/') && forall k :: i <= k < e ==> s[k] != '/'
    ensures Names(s[..e]) == Names(s[..i]) + [s[i..e]]
  {
    hide Names;
    assert s[..e] == s[..i] + s[i..e];
    assert i > 0 ==> s[..i][i - 1] == '/';
    NamesSnoc(s[..i], s[i..e]);
  }

  /** The text fits the buffer, with its terminator, after every component. */
  predicate Fits(base: nat, cs: seq<string>, cap: nat)
    decreases |cs|
  {
    (cs == [] || Fits(base, cs[..|cs| - 1], cap)) && |Run(Root(base), base, cs)| < cap
  }

  lemma {:induction false} FitsPrefix(base: nat, a: seq<string>, b: seq<string>, cap: nat)
    requires Fits(base, a + b, cap)
    ensures Fits(base, a, cap)
    decreases |b|
  {
    if b == [] {
      assert a + b == a;
    } else {
      assert (a + b)[..|a + b| - 1] == a + b[..|b| - 1];
      FitsPrefix(base, a, b[..|b| - 1], cap);
    }
  }

  function BaseOf(src: string): nat {
    if src != "" && src[0] == '/' then 1 else 0
  }

  /** `dst` holds `text` and its terminator. */
  ghost predicate Written(dst: array<char>, text: string)
    reads dst
  {
    |text| < dst.Length && dst[..|text|] == text && dst[|text|] == '\0'
  }

  /** The backward loop of "..". */
  method PopName(dst: array<char>, di0: nat, base: nat) returns (di: nat)
    requires di0 <= dst.Length
    ensures dst[..di0] == old(dst[..di0]) && di <= di0 && dst[..di] == Chop(dst[..di0], base)
  {
    di := di0;
    if di > base {
      di := di - 1;
      assert dst[..di0][..di] == dst[..di];
      while di > base && dst[di - 1] != '/'
        invariant di < di0 && Back(dst[..di], base) == Chop(dst[..di0], base)
      {
        assert dst[..di][..di - 1] == dst[..di - 1];
        di := di - 1;
      }
    }
  }

  /** A slash if one is needed, and the name; nothing when it does not fit. */
  method PushName(dst: array<char>, di0: nat, c: string) returns (di: nat, ok: bool)
    requires di0 <= dst.Length && dst.Length > 0 && c != ""
    modifies dst
    ensures ok <==> |Push(old(dst[..di0]), c)| < dst.Length
    ensures ok ==> di < dst.Length && dst[..di] == Push(old(dst[..di0]), c)
    ensures !ok ==> dst[0] == '\0'
  {
    di := di0;
    if di > 0 && !(di == 1 && dst[0] == '/') {
      if di >= dst.Length {
        dst[0] := '\0';
        return di, false;
      }
      dst[di] := '/';
      di := di + 1;
    }
    if di + |c| >= dst.Length {
      dst[0] := '\0';
      return di, false;
    }
    CopyAt(dst, di, c);
    di := di + |c|;
    ok := true;
  }

  /** ic_memcpy of a name to index `at`. */
  method CopyAt(dst: array<char>, at: nat, c: string)
    requires at + |c| < dst.Length
    modifies dst
    ensures dst[..at + |c|] == old(dst[..at]) + c
  {
    var i: nat := 0;
    while i < |c|
      invariant i <= |c| && dst[..at + i] == old(dst[..at]) + c[..i]
    {
      dst[at + i] := c[i];
      i := i + 1;
    }
  }

  lemma EmptySource(cap: nat)
    requires cap > 0
    ensures Names("") == [] && Run(Root(0), 0, []) == "" && Fits(0, [], cap)
  {
  }

  lemma StartFacts(src: string, cap: nat)
    ensures var base := BaseOf(src);
            && Names(src) == [] + NamesFrom(src, base) && Run(Root(base), base, []) == Root(base)
            && (cap > base ==> Fits(base, [], cap))
  {
    var base := BaseOf(src);
    FrontIsBack(src, base);
    if base == 1 {
      assert src[..1] == "/";
      AtRoot("/", 1);
    }
  }

  lemma NothingLeft(src: string)
    ensures NamesFrom(src, |src|) == []
  {
  }

  lemma SkipSlash(src: string, i: nat)
    requires i < |src| && src[i] == '/'
    ensures NamesFrom(src, i) == NamesFrom(src, i + 1)
  {
  }

  lemma TakeName(src: string, i: nat, e: nat)
    requires i < e <= |src| && (e == |src| || src[e] == '/') && forall k :: i <= k < e ==> src[k] != '/'
    ensures NamesFrom(src, i) == [src[i..e]] + NamesFrom(src, e) && src[i..e] != ""
  {
    assert SlashAt(src, i + 1) == e;
  }

  lemma StepFacts(base: nat, done: seq<string>, c: string, cap: nat, rest: seq<string>)
    ensures var d, after := Run(Root(base), base, done), Run(Root(base), base, done + [c]);
            && after == (if c == "." then d else if c == ".." then Chop(d, base) else Push(d, c))
            && (Fits(base, done + [c], cap) <==> Fits(base, done, cap) && |after| < cap)
            && (Fits(base, done + ([c] + rest), cap) ==> Fits(base, done + [c], cap))
  {
    RunSnoc(Root(base), base, done, c);
    assert (done + [c])[..|done|] == done;
    assert done + ([c] + rest) == (done + [c]) + rest;
    if Fits(base, done + ([c] + rest), cap) {
      FitsPrefix(base, done + [c], rest, cap);
    }
  }

  datatype Outcome = Done | NoRoom | Overrun

  /** An absolute path without an ordinary name. */
  predicate OnlyDots(cs: seq<string>) {
    forall i :: 0 <= i < |cs| ==> cs[i] == "." || cs[i] == ".."
  }

  /** The case in which the terminator is written behind the buffer. */
  predicate Overruns(src: string, cap: nat) {
    cap == 1 && BaseOf(src) == 1 && OnlyDots(Names(src))
  }

  /** The bare root is such a path, for a buffer of one character. */
  lemma RootOverruns()
    ensures Overruns("/", 1)
  {
    AtRoot("/", 1);
  }

  /**
   * ic_path_normalize: on success the buffer holds the text the components lead to; there is no room
   * exactly when that text, at some component, does not fit, and the terminator overruns the buffer
   * exactly for an absolute path without an ordinary name and a buffer of one character.
   */
  method Normalize(dst: array<char>, src: string) returns (r: Outcome)
    requires '\0' !in src
    modifies dst
    ensures r == Overrun <==> Overruns(src, dst.Length)
    ensures r == Done <==> dst.Length > 0 && Fits(BaseOf(src), Names(src), dst.Length)
    ensures r == Done ==> Written(dst, Run(Root(BaseOf(src)), BaseOf(src), Names(src)))
    ensures r == NoRoom && dst.Length > 0 ==> dst[0] == '\0'
  {
    hide Names, NamesFrom, Run, Step, Chop, Push, Fits;
    if dst.Length == 0 {
      return NoRoom;
    }
    EmptySource(dst.Length);
    dst[0] := '\0';
    if src == "" {
      return Done;
    }
    ghost var base := BaseOf(src);
    ghost var tight := dst.Length == 1 && base == 1;
    var di: nat, si: nat := 0, 0;
    var isAbs := src[0] == '/';
    if isAbs {
      dst[0] := '/';
      di, si := 1, 1;
    }
    ghost var done: seq<string> := [];
    StartFacts(src, dst.Length);
    TightNeverFits(Names(src));
    while true
      invariant si <= |src| && base == (if isAbs then 1 else 0) == BaseOf(src)
      invariant Names(src) == done + NamesFrom(src, si)
      invariant di <= dst.Length && dst[..di] == Run(Root(base), base, done)
      invariant if tight then di == 1 && OnlyDots(done) else di < dst.Length && Fits(base, done, dst.Length)
      decreases |src| - si
    {
      while si < |src| && src[si] == '/'
        invariant si <= |src| && Names(src) == done + NamesFrom(src, si)
        invariant dst[..di] == Run(Root(base), base, done)
      {
        SkipSlash(src, si);
        si := si + 1;
      }
      if si == |src| {
        break;
      }
      var start := si;
      while si < |src| && src[si] != '/'
        invariant start <= si <= |src| && forall k :: start <= k < si ==> src[k] != '/'
        invariant dst[..di] == Run(Root(base), base, done)
      {
        si := si + 1;
      }
      var c := src[start..si];
      TakeName(src, start, si);
      StepFacts(base, done, c, dst.Length, NamesFrom(src, si));
      assert Names(src) == done + ([c] + NamesFrom(src, si));
      if c == "." {
      } else if c == ".." {
        ChopAtRoot(dst[..di], base);
        di := PopName(dst, di, if isAbs then 1 else 0);
      } else {
        var fits;
        PushNotEmpty(dst[..di], c);
        di, fits := PushName(dst, di, c);
        if !fits {
          assert Names(src)[|done|] == c;
          return NoRoom;
        }
      }
      assert Names(src) == (done + [c]) + NamesFrom(src, si);
      done := done + [c];
    }
    NothingLeft(src);
    assert Names(src) == done;
    if di >= dst.Length {
      return Overrun;
    }
    dst[di] := '\0';
    r := Done;
  }

  lemma ChopAtRoot(d: string, base: nat)
    ensures |d| <= base ==> Chop(d, base) == d
  {
  }

  lemma PushNotEmpty(d: string, c: string)
    ensures |Push(d, c)| >= |c|
  {
  }

  lemma TightNeverFits(cs: seq<string>)
    ensures !Fits(1, cs, 1)
  {
    if Fits(1, cs, 1) {
      assert [] + cs == cs;
      FitsPrefix(1, [], cs, 1);
    }
  }
}
