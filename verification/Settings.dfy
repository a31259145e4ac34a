/** The settings file: one `key=value` per line, applied line by line over the defaults, and printed back. */
module Settings {
  import opened Bytes

  // ------------------------------------------------------------- what a line means

  datatype Key = Vsync | Animations | BootAnim | Audio | Theme | Accent | Glass

  function Name(k: Key): (s: string)
    ensures 5 <= |s| <= 10 && '=' !in s && '\n' !in s && s[0] !in "#\n\r \t"
  {
    match k
    case Vsync => "vsync"
    case Animations => "animations"
    case BootAnim => "boot_anim"
    case Audio => "audio"
    case Theme => "theme"
    case Accent => "accent"
    case Glass => "glass"
  }

  /** The largest value a key accepts. */
  function Largest(k: Key): nat {
    match k
    case Accent => 3
    case Glass => 2
    case _ => 1
  }

  function Digit(v: nat): char
    requires v < 10
  {
    "0123456789"[v]
  }

  /** Blanks in front of a line do not count. */
  function Trimmed(line: string): (t: string)
    ensures |t| <= |line| && (t != "" ==> t[0] != ' ' && t[0] != '\t')
  {
    if line != "" && (line[0] == ' ' || line[0] == '\t') then Trimmed(line[1..]) else line
  }

  /** `line` gives key `k` the value `v`; whatever follows the digit does not matter. */
  predicate Assigns(line: string, k: Key, v: nat) {
    v <= Largest(k) && Name(k) + "=" + [Digit(v)] <= Trimmed(line)
  }

  lemma AssignsOneKey(line: string, k: Key, v: nat, k': Key, v': nat)
    requires Assigns(line, k, v) && Assigns(line, k', v')
    ensures k == k' && v == v'
  {
    hide Name, Trimmed;
    var t, n, n' := Trimmed(line), |Name(k)|, |Name(k')|;
    AssignsShape(line, k, v);
    AssignsShape(line, k', v');
    FirstIsUnique(t, '=', n, n');
    SameName(k, k');
  }

  lemma AssignsShape(line: string, k: Key, v: nat)
    requires Assigns(line, k, v)
    ensures var t, n := Trimmed(line), |Name(k)|;
            && n + 1 < |t| && t[..n] == Name(k) && t[0] == Name(k)[0] && t[n] == '=' && t[n + 1] == Digit(v)
            && forall i :: 0 <= i < n ==> t[i] != '='
  {
    var t, n := Trimmed(line), |Name(k)|;
    PrefixAt(Name(k) + "=" + [Digit(v)], t);
    forall i | 0 <= i < n ensures t[i] != '=' {
      assert t[i] == Name(k)[i];
    }
  }

  lemma PrefixAt(p: string, t: string)
    requires p <= t
    ensures forall i :: 0 <= i < |p| ==> t[i] == p[i]
    ensures forall i :: 0 <= i <= |p| ==> t[..i] == p[..i]
  {
  }

  lemma FirstIsUnique(t: string, c: char, n: nat, m: nat)
    requires n < |t| && t[n] == c && forall i :: 0 <= i < n ==> t[i] != c
    requires m < |t| && t[m] == c && forall i :: 0 <= i < m ==> t[i] != c
    ensures n == m
  {
  }

  lemma SameName(k: Key, k': Key)
    requires Name(k) == Name(k')
    ensures k == k'
  {
    assert Name(k)[0] == Name(k')[0] && Name(k)[1] == Name(k')[1];
  }

  // ------------------------------------------------------------------ the record

  datatype Record = Record(vsync: int, animations: int, bootAnim: int, audio: int, theme: int, accent: int, glass: int) {
    function Get(k: Key): int {
      match k
      case Vsync => vsync
      case Animations => animations
      case BootAnim => bootAnim
      case Audio => audio
      case Theme => theme
      case Accent => accent
      case Glass => glass
    }

    function With(k: Key, v: int): (r: Record)
      ensures r.Get(k) == v && forall o :: o != k ==> r.Get(o) == Get(o)
    {
      match k
      case Vsync => this.(vsync := v)
      case Animations => this.(animations := v)
      case BootAnim => this.(bootAnim := v)
      case Audio => this.(audio := v)
      case Theme => this.(theme := v)
      case Accent => this.(accent := v)
      case Glass => this.(glass := v)
    }

    predicate InRange() {
      forall k :: 0 <= Get(k) <= Largest(k)
    }
  }

  lemma SameRecord(a: Record, b: Record)
    requires forall k :: a.Get(k) == b.Get(k)
    ensures a == b
  {
    assert a.Get(Vsync) == b.Get(Vsync) && a.Get(Animations) == b.Get(Animations);
    assert a.Get(BootAnim) == b.Get(BootAnim) && a.Get(Audio) == b.Get(Audio);
    assert a.Get(Theme) == b.Get(Theme) && a.Get(Accent) == b.Get(Accent) && a.Get(Glass) == b.Get(Glass);
  }

  const DEFAULTS := Record(1, 1, 1, 1, 0, 0, 1)

  // ------------------------------------------------------------- loading, as a fold

  /** The record after one line: at most one key changes. */
  ghost function Applied(r: Record, line: string): Record {
    if exists k, v: nat :: Assigns(line, k, v) then
      var k, v: nat :| Assigns(line, k, v);
      r.With(k, v)
    else
      r
  }

  lemma AppliedIs(r: Record, line: string, k: Key, v: nat)
    requires Assigns(line, k, v)
    ensures Applied(r, line) == r.With(k, v)
  {
    var k', v': nat :| Assigns(line, k', v') && Applied(r, line) == r.With(k', v');
    AssignsOneKey(line, k, v, k', v');
  }

  /** The lines of a text: the pieces between its line breaks. */
  function Split(s: string): (lines: seq<string>)
    ensures |lines| > 0 && forall l :: l in lines ==> '\n' !in l
    decreases |s|
  {
    var e := LineLength(s);
    if e == |s| then [s] else [s[..e]] + Split(s[e + 1..])
  }

  function LineLength(s: string): (n: nat)
    ensures n <= |s| && (n == |s| || s[n] == '\n') && forall i :: 0 <= i < n ==> s[i] != '\n'
  {
    if s == "" || s[0] == '\n' then 0 else 1 + LineLength(s[1..])
  }

  ghost function ApplyAll(r: Record, lines: seq<string>): Record
    decreases |lines|
  {
    if lines == [] then r else ApplyAll(Applied(r, lines[0]), lines[1..])
  }

  ghost function Loaded(r: Record, text: string): Record {
    ApplyAll(r, Split(text))
  }

  /** The last line that assigns a key decides its value, whatever the other lines hold. */
  lemma {:induction false} LastAssignmentWins(r: Record, lines: seq<string>, i: nat, k: Key, v: nat)
    requires i < |lines| && Assigns(lines[i], k, v)
    requires forall j, w: nat :: i < j < |lines| ==> !Assigns(lines[j], k, w)
    ensures ApplyAll(r, lines).Get(k) == v
    decreases |lines|
  {
    if i == 0 {
      AppliedIs(r, lines[0], k, v);
      UnassignedStays(Applied(r, lines[0]), lines[1..], k);
    } else {
      LastAssignmentWins(Applied(r, lines[0]), lines[1..], i - 1, k, v);
    }
  }

  /** A key that no line assigns keeps its value. */
  lemma {:induction false} UnassignedStays(r: Record, lines: seq<string>, k: Key)
    requires forall j, w: nat :: 0 <= j < |lines| ==> !Assigns(lines[j], k, w)
    ensures ApplyAll(r, lines).Get(k) == r.Get(k)
    decreases |lines|
  {
    if lines != [] {
      AppliedElsewhere(r, lines[0], k);
      UnassignedStays(Applied(r, lines[0]), lines[1..], k);
    }
  }

  lemma AppliedElsewhere(r: Record, line: string, k: Key)
    requires forall w: nat :: !Assigns(line, k, w)
    ensures Applied(r, line).Get(k) == r.Get(k)
  {
    if k', v: nat :| Assigns(line, k', v) {
      AppliedIs(r, line, k', v);
      assert k' != k;
    }
  }

  /** No text whatever moves a field out of its documented range. */
  lemma {:induction false} RangesKept(r: Record, lines: seq<string>)
    requires r.InRange()
    ensures ApplyAll(r, lines).InRange()
    decreases |lines|
  {
    if lines != [] {
      AppliedInRange(r, lines[0]);
      RangesKept(Applied(r, lines[0]), lines[1..]);
    }
  }

  /** Whatever the file holds, a load leaves every field in range. */
  lemma LoadedInRange(text: string)
    ensures Loaded(DEFAULTS, text).InRange()
  {
    RangesKept(DEFAULTS, Split(text));
  }

  lemma AppliedInRange(r: Record, line: string)
    requires r.InRange()
    ensures Applied(r, line).InRange()
  {
    if k, v: nat :| Assigns(line, k, v) {
      AppliedIs(r, line, k, v);
    }
  }

  // ------------------------------------------------------------------------ saving

  function Clamped(k: Key, x: int): (v: nat)
    ensures v <= Largest(k) && (0 <= x <= Largest(k) ==> v == x)
  {
    if k.Theme? || k.Accent? || k.Glass? then
      if x < 0 then 0 else if x > Largest(k) then Largest(k) else x
    else if x == 0 then 0 else 1
  }

  /** What saving and loading a record makes of it: flags become 0 or 1, the others are clamped. */
  function Normalised(r: Record): (n: Record)
    ensures forall k :: n.Get(k) == Clamped(k, r.Get(k))
  {
    Record(Clamped(Vsync, r.vsync), Clamped(Animations, r.animations), Clamped(BootAnim, r.bootAnim),
           Clamped(Audio, r.audio), Clamped(Theme, r.theme), Clamped(Accent, r.accent), Clamped(Glass, r.glass))
  }

  function Header(): string {
    "# ICDA settings (0/1 + theme/accent/glass)"
  }

  const ORDER := [Vsync, Animations, BootAnim, Audio, Theme, Accent, Glass]

  function Pair(k: Key, r: Record): string {
    Name(k) + "=" + [Digit(Clamped(k, r.Get(k)))]
  }

  /** The file with the first `n` keys written. */
  function Printed(r: Record, n: nat): (s: string)
    requires n <= 7
    ensures 0 < |s| <= 43 + 13 * n
  {
    if n == 0 then Header() + "\n" else Printed(r, n - 1) + Pair(ORDER[n - 1], r) + "\n"
  }

  /** A number of one digit. */
  function Written(v: int): string {
    if 0 <= v < 10 then [(v + '0' as int) as char] else ""
  }

  /** The file that is written, spelt out. */
  lemma WrittenOut(r: Record)
    requires r.InRange()
    ensures Printed(r, 7) == "# ICDA settings (0/1 + theme/accent/glass)\n"
         + "vsync=" + Written(r.vsync) + "\n" + "animations=" + Written(r.animations) + "\n"
         + "boot_anim=" + Written(r.bootAnim) + "\n" + "audio=" + Written(r.audio) + "\n"
         + "theme=" + Written(r.theme) + "\n" + "accent=" + Written(r.accent) + "\n" + "glass=" + Written(r.glass) + "\n"
  {
    hide Printed, Written, Pair;
    KeyWritten(r, 0, "vsync=", r.vsync);
    KeyWritten(r, 1, "animations=", r.animations);
    KeyWritten(r, 2, "boot_anim=", r.bootAnim);
    KeyWritten(r, 3, "audio=", r.audio);
    KeyWritten(r, 4, "theme=", r.theme);
    KeyWritten(r, 5, "accent=", r.accent);
    KeyWritten(r, 6, "glass=", r.glass);
    HeaderWritten(r);
  }

  lemma HeaderWritten(r: Record)
    ensures Printed(r, 0) == "# ICDA settings (0/1 + theme/accent/glass)\n"
  {
  }

  lemma KeyWritten(r: Record, n: nat, text: string, v: int)
    requires r.InRange() && n < 7 && Name(ORDER[n]) + "=" == text && r.Get(ORDER[n]) == v
    ensures Printed(r, n + 1) == Printed(r, n) + text + Written(v) + "\n"
  {
    var k := ORDER[n];
    assert 0 <= r.Get(k) <= Largest(k);
    assert Pair(k, r) == text + Written(v);
    assert Printed(r, n) + (text + Written(v)) + "\n" == Printed(r, n) + text + Written(v) + "\n";
  }

  lemma PairAssigns(k: Key, r: Record)
    ensures Assigns(Pair(k, r), k, Clamped(k, r.Get(k))) && '\n' !in Pair(k, r)
  {
    assert Pair(k, r)[0] == Name(k)[0];
    assert Trimmed(Pair(k, r)) == Pair(k, r);
  }

  lemma HeaderStart()
    ensures Trimmed(Header()) == Header() && |Header()| == 42 && Header()[0] == '#'
  {
    var h := Header();
    assert h[0] == '#';
  }

  lemma HeaderAssignsNothing(k: Key, v: nat)
    requires v < 10
    ensures !Assigns(Header(), k, v)
  {
    hide Header, Trimmed, Name;
    HeaderStart();
    assert Trimmed(Header())[0] == '#' != (Name(k) + "=" + [Digit(v)])[0];
  }

  lemma SplitFirst(line: string, rest: string)
    requires '\n' !in line
    ensures Split(line + "\n" + rest) == [line] + Split(rest)
  {
    var s := line + "\n" + rest;
    var e := LineLength(s);
    assert s[|line|] == '\n' && s[..|line|] == line;
    assert forall i :: 0 <= i < |line| ==> s[i] == line[i];
    FirstIsUnique(s, '\n', e, |line|);
    assert s[|line| + 1..] == rest;
  }

  lemma EmptyAssignsNothing(r: Record)
    ensures Applied(r, "") == r && Loaded(r, "") == r
  {
    assert Split("") == [""];
    assert forall k, v: nat :: !Assigns("", k, v);
    assert ApplyAll(r, [""]) == ApplyAll(Applied(r, ""), []);
  }

  /** A file that assigns nothing leaves everything switched on, the first theme and accent, and the middle glass. */
  lemma DefaultsStand()
    ensures var r := Loaded(DEFAULTS, "");
            && r.vsync == 1 && r.animations == 1 && r.bootAnim == 1 && r.audio == 1
            && r.theme == 0 && r.accent == 0 && r.glass == 1
  {
    EmptyAssignsNothing(DEFAULTS);
  }

  /** A further line at the end of a text that ends in a line break is applied last. */
  lemma {:induction false} LoadedAppend(r: Record, p: string, line: string)
    requires (p == "" || p[|p| - 1] == '\n') && '\n' !in line
    ensures Loaded(r, p + line + "\n") == Applied(Loaded(r, p), line)
    decreases |p|
  {
    hide Loaded, Applied;
    if p == "" {
      assert p + line + "\n" == line + "\n" + "";
      LoadedFirst(r, line, "");
      EmptyAssignsNothing(r);
      EmptyAssignsNothing(Applied(r, line));
    } else {
      var e := LineLength(p);
      var head, rest := p[..e], p[e + 1..];
      assert p == head + "\n" + rest;
      assert p + line + "\n" == head + "\n" + (rest + line + "\n");
      LoadedFirst(r, head, rest);
      LoadedFirst(r, head, rest + line + "\n");
      LoadedAppend(Applied(r, head), rest, line);
    }
  }

  lemma LoadedFirst(r: Record, line: string, rest: string)
    requires '\n' !in line
    ensures Loaded(r, line + "\n" + rest) == Loaded(Applied(r, line), rest)
  {
    SplitFirst(line, rest);
    assert ([line] + Split(rest))[1..] == Split(rest);
  }

  /** Loading the first `n` printed keys over any record sets exactly those keys. */
  lemma {:induction false} LoadedPrinted(r: Record, x: Record, n: nat, k: Key)
    requires n <= 7
    ensures Loaded(x, Printed(r, n)).Get(k) == if k in ORDER[..n] then Clamped(k, r.Get(k)) else x.Get(k)
    decreases n
  {
    hide Loaded, Pair, Clamped, Assigns, Applied, Record.Get, Record.With;
    if n == 0 {
      HeaderLoads(x);
    } else {
      var o := ORDER[n - 1];
      LoadedPrinted(r, x, n - 1, k);
      LoadedPair(r, x, n, o);
      assert ORDER[..n] == ORDER[..n - 1] + [o];
    }
  }

  lemma LoadedPair(r: Record, x: Record, n: nat, o: Key)
    requires 0 < n <= 7 && o == ORDER[n - 1]
    ensures Loaded(x, Printed(r, n)) == Loaded(x, Printed(r, n - 1)).With(o, Clamped(o, r.Get(o)))
  {
    hide Loaded, Pair, Clamped, Assigns, Applied, Record.Get, Record.With;
    PairAssigns(o, r);
    PrintedEnds(r, n - 1);
    LoadedAppend(x, Printed(r, n - 1), Pair(o, r));
    AppliedIs(Loaded(x, Printed(r, n - 1)), Pair(o, r), o, Clamped(o, r.Get(o)));
  }

  lemma PrintedEnds(r: Record, n: nat)
    requires n <= 7
    ensures var p := Printed(r, n); p != "" && p[|p| - 1] == '\n'
  {
  }

  lemma FirstLineLoads(x: Record, h: string)
    requires '\n' !in h
    ensures Loaded(x, h + "\n") == Applied(x, h)
  {
    LoadedAppend(x, "", h);
    EmptyAssignsNothing(x);
    assert "" + h + "\n" == h + "\n";
  }

  lemma HeaderIsLine()
    ensures '\n' !in Header()
  {
  }

  lemma HeaderLoads(x: Record)
    ensures Loaded(x, Header() + "\n") == x
  {
    hide Loaded, Header;
    HeaderIsLine();
    FirstLineLoads(x, Header());
    AppliedElsewhereHeader(x);
  }

  lemma AppliedElsewhereHeader(x: Record)
    ensures Applied(x, Header()) == x
  {
    if k, v: nat :| Assigns(Header(), k, v) {
      HeaderAssignsNothing(k, v);
    }
  }

  /** Loading what was saved gives the normalised record, whatever was there before. */
  lemma LoadUndoesSave(r: Record, x: Record)
    ensures Read(Some(Printed(r, 7)), CAP - 1) == Printed(r, 7)
    ensures Loaded(x, Printed(r, 7)) == Normalised(r)
  {
    forall k ensures Loaded(x, Printed(r, 7)).Get(k) == Normalised(r).Get(k) {
      LoadedPrinted(r, x, 7, k);
      InOrder(k);
    }
    SameRecord(Loaded(x, Printed(r, 7)), Normalised(r));
  }

  lemma InOrder(k: Key)
    ensures k in ORDER[..7]
  {
    assert ORDER[..7] == ORDER;
    assert ORDER[0] == Vsync && ORDER[1] == Animations && ORDER[2] == BootAnim && ORDER[3] == Audio;
    assert ORDER[4] == Theme && ORDER[5] == Accent && ORDER[6] == Glass;
  }

  /** Records that are in range survive the round trip unchanged. */
  lemma InRangeIsNormal(r: Record)
    requires r.InRange()
    ensures Normalised(r) == r
  {
    forall k ensures Normalised(r).Get(k) == r.Get(k) {
    }
    SameRecord(Normalised(r), r);
  }

  // ----------------------------------------------- the code that walks through a line

  lemma DigitIs(v: nat)
    requires v < 10
    ensures Digit(v) as int == '0' as int + v
  {
  }

  lemma NothingApplied(r: Record, line: string)
    requires forall k, v: nat :: !Assigns(line, k, v)
    ensures Applied(r, line) == r
  {
  }

  /** The name, the '=' and the digit of a value in range are what assigns it. */
  lemma InRangeAssigns(line: string, n: nat, k: Key, v: nat)
    requires n + 1 < |Trimmed(line)| && Trimmed(line)[..n] == Name(k) && Trimmed(line)[n] == '='
    requires v <= Largest(k) && Trimmed(line)[n + 1] as int == '0' as int + v
    ensures Assigns(line, k, v)
  {
    hide Name, Trimmed, Digit;
    DigitIs(v);
    var t := Trimmed(line);
    assert t[..n + 2] == Name(k) + "=" + [Digit(v)];
  }

  /** Nothing else behind that name and '=' assigns anything. */
  lemma OtherwiseAssignsNothing(line: string, n: nat, k: Key, k': Key, v: nat)
    requires n + 1 < |Trimmed(line)| && Trimmed(line)[..n] == Name(k) && Trimmed(line)[n] == '='
    requires Assigns(line, k', v)
    ensures k' == k && Trimmed(line)[n + 1] as int == '0' as int + v
  {
    hide Name, Trimmed, Digit;
    var t := Trimmed(line);
    AssignsShape(line, k', v);
    assert forall i :: 0 <= i < n ==> t[i] == Name(k)[i] != '=';
    FirstIsUnique(t, '=', n, |Name(k')|);
    SameName(k, k');
    DigitIs(v);
  }

  /** With its first '=' at `n`, a line assigns exactly the key named before it, if its digit is in range. */
  lemma KeyDecides(r: Record, line: string, n: nat, k: Key)
    requires n + 1 < |Trimmed(line)| && Trimmed(line)[..n] == Name(k) && Trimmed(line)[n] == '='
    ensures var c := Trimmed(line)[n + 1];
            Applied(r, line) == if '0' <= c && c as int - '0' as int <= Largest(k) then r.With(k, c as int - '0' as int) else r
  {
    hide Name, Trimmed, Digit, Assigns, Applied;
    var c := Trimmed(line)[n + 1];
    if '0' <= c && c as int - '0' as int <= Largest(k) {
      var v := c as int - '0' as int;
      InRangeAssigns(line, n, k, v);
      AppliedIs(r, line, k, v);
    } else {
      forall k', v: nat ensures !Assigns(line, k', v) {
        if Assigns(line, k', v) {
          OtherwiseAssignsNothing(line, n, k, k', v);
          AssignedInRange(line, k', v);
          assert false;
        }
      }
      NothingApplied(r, line);
    }
  }

  lemma AssignedInRange(line: string, k: Key, v: nat)
    requires Assigns(line, k, v)
    ensures v <= Largest(k)
  {
  }

  /** A line changes nothing when its first '=' does not follow a key's name and precede something. */
  lemma NoKeyNoChange(r: Record, line: string, n: nat)
    requires n <= |Trimmed(line)| && forall i :: 0 <= i < n ==> Trimmed(line)[i] != '='
    requires || (n >= 16 && (n == |Trimmed(line)| || Trimmed(line)[n] != '='))
             || n + 1 >= |Trimmed(line)|
             || (Trimmed(line)[n] == '=' && forall k :: Trimmed(line)[..n] != Name(k))
    ensures Applied(r, line) == r
  {
    if k, v: nat :| Assigns(line, k, v) {
      AssignsShape(line, k, v);
      assert false;
    }
  }

  lemma OddStartNoChange(r: Record, line: string)
    requires Trimmed(line) == "" || Trimmed(line)[0] in "#\n\r"
    ensures Applied(r, line) == r
  {
    if k, v: nat :| Assigns(line, k, v) {
      AssignsShape(line, k, v);
      assert false;
    }
  }

  lemma TrimStep(line: string, i: nat)
    requires i < |line| && (line[i] == ' ' || line[i] == '\t')
    ensures Trimmed(line[i..]) == Trimmed(line[i + 1..])
  {
    assert line[i..][1..] == line[i + 1..];
  }

  /** What the system call hands over: at most one byte less than the buffer holds, nothing for a missing file. */
  function Read(content: Option<string>, cap: nat): (s: string)
    requires cap > 0
    ensures |s| < cap && (content == None ==> s == "")
    ensures content.Some? ==> s <= content.value && (|content.value| < cap ==> s == content.value)
  {
    match content
    case None => ""
    case Some(c) => if |c| >= cap then c[..cap - 1] else c
  }

  const CAP := 384

  lemma TrimDone(line: string, i: nat)
    requires i <= |line| && (i == |line| || (line[i] != ' ' && line[i] != '\t')) && Trimmed(line[i..]) == Trimmed(line)
    ensures Trimmed(line) == line[i..]
  {
  }

  lemma LoadedStep(r: Record, buf: string, lineStart: nat, pos: nat)
    requires lineStart <= pos <= |buf| && '\n' !in buf[lineStart..pos] && (pos == |buf| || buf[pos] == '\n')
    ensures pos == |buf| ==> Loaded(r, buf[lineStart..]) == Applied(r, buf[lineStart..pos])
    ensures pos < |buf| ==> Loaded(r, buf[lineStart..]) == Loaded(Applied(r, buf[lineStart..pos]), buf[pos + 1..])
  {
    var line, text := buf[lineStart..pos], buf[lineStart..];
    if pos == |buf| {
      assert text == line;
      assert Split(text) == [line];
      assert ApplyAll(r, [line]) == ApplyAll(Applied(r, line), []);
    } else {
      assert text == line + "\n" + buf[pos + 1..];
      LoadedFirst(r, line, buf[pos + 1..]);
    }
  }

  /** icda_settings_put: as much of the text as fits, and a terminator behind it. */
  method Put(dst: array<char>, pos0: nat, text: string) returns (pos: nat)
    requires dst.Length > 0 && '\0' !in text
    modifies dst
    ensures pos0 >= dst.Length ==> pos == pos0 && dst[..] == old(dst[..])
    ensures pos0 < dst.Length ==>
              && pos == (if pos0 + |text| < dst.Length then pos0 + |text| else dst.Length - 1)
              && dst[..pos] == old(dst[..pos0]) + text[..pos - pos0] && dst[pos] == '\0'
  {
    pos := pos0;
    if pos >= dst.Length {
      return;
    }
    var i: nat := 0;
    while i < |text| && pos + 1 < dst.Length
      invariant i <= |text| && pos == pos0 + i < dst.Length
      invariant dst[..pos] == old(dst[..pos0]) + text[..i]
    {
      dst[pos] := text[i];
      pos := pos + 1;
      i := i + 1;
    }
    dst[pos] := '\0';
  }

  lemma PrintedStart(r: Record)
    ensures Printed(r, 0) == Header() + "\n" && |Printed(r, 0)| < CAP && '\0' !in Header() + "\n"
  {
  }

  /** `key` and `value` are the two texts of the `n`th line. */
  predicate IsPair(r: Record, n: nat, key: string, value: string)
    requires 0 < n <= 7
  {
    var o := ORDER[n - 1];
    key == Name(o) + "=" && value == [Digit(Clamped(o, r.Get(o)))] + "\n"
  }

  lemma FlagPairs(r: Record)
    ensures IsPair(r, 1, "vsync=", if r.vsync != 0 then "1\n" else "0\n")
    ensures IsPair(r, 2, "animations=", if r.animations != 0 then "1\n" else "0\n")
    ensures IsPair(r, 3, "boot_anim=", if r.bootAnim != 0 then "1\n" else "0\n")
    ensures IsPair(r, 4, "audio=", if r.audio != 0 then "1\n" else "0\n")
  {
  }

  lemma RangePairs(r: Record)
    ensures IsPair(r, 5, "theme=", if r.theme <= 0 then "0\n" else "1\n")
    ensures IsPair(r, 6, "accent=",
                   if r.accent <= 0 then "0\n" else if r.accent == 1 then "1\n" else if r.accent == 2 then "2\n" else "3\n")
    ensures IsPair(r, 7, "glass=", if r.glass <= 0 then "0\n" else if r.glass == 1 then "1\n" else "2\n")
  {
  }

  /** The two calls that write one `key=value` line, the buffer having room for all seven lines. */
  method PutPair(dst: array<char>, pos0: nat, key: string, value: string, ghost r: Record, ghost n: nat) returns (pos: nat)
    requires dst.Length == CAP && 0 < n <= 7 && pos0 == |Printed(r, n - 1)| && dst[..pos0] == Printed(r, n - 1)
    requires IsPair(r, n, key, value)
    modifies dst
    ensures pos == |Printed(r, n)| < CAP && dst[..pos] == Printed(r, n)
  {
    hide Name, Clamped, Record.Get, IsPair;
    PrintedNext(r, n, key, value);
    pos := Put(dst, pos0, key);
    pos := Put(dst, pos, value);
  }

  lemma PrintedNext(r: Record, n: nat, key: string, value: string)
    requires 0 < n <= 7
    requires IsPair(r, n, key, value)
    ensures Printed(r, n) == Printed(r, n - 1) + key + value && |Printed(r, n)| < CAP
    ensures '\0' !in key && '\0' !in value
  {
    hide Clamped, Record.Get, Name;
    var o := ORDER[n - 1];
    assert Printed(r, n - 1) + (key + value) == Printed(r, n - 1) + key + value;
    assert key + value == Pair(o, r) + "\n";
    assert Printed(r, n - 1) + Pair(o, r) + "\n" == Printed(r, n - 1) + (Pair(o, r) + "\n");
    NoNul(o);
  }

  lemma NoNul(k: Key)
    ensures '\0' !in Name(k)
  {
  }

  lemma NamesAre()
    ensures Name(Vsync) == "vsync" && Name(Animations) == "animations" && Name(BootAnim) == "boot_anim"
    ensures Name(Audio) == "audio" && Name(Theme) == "theme" && Name(Accent) == "accent" && Name(Glass) == "glass"
  {
  }

  lemma NoOtherName(key: string)
    requires key != "vsync" && key != "animations" && key != "boot_anim" && key != "audio"
    requires key != "theme" && key != "accent" && key != "glass"
    ensures forall k :: key != Name(k)
  {
  }

  class Store {
    var vsync: int
    var animations: int
    var bootAnim: int
    var audio: int
    var theme: int
    var accent: int
    var glass: int

    ghost function Value(): Record
      reads this
    {
      Record(vsync, animations, bootAnim, audio, theme, accent, glass)
    }

    method Defaults()
      modifies this
      ensures Value() == DEFAULTS
    {
      vsync, animations, bootAnim, audio, theme, accent, glass := 1, 1, 1, 1, 0, 0, 1;
    }

    /** icda_settings_apply_line: one line, read character by character, does what `Applied` says. */
    method ApplyLine(line: string)
      modifies this
      ensures Value() == Applied(old(Value()), line)
    {
      hide Applied, Trimmed, Name, Assigns;
      ghost var r := Value();
      var i: nat := 0;
      assert line[0..] == line;
      while i < |line| && (line[i] == ' ' || line[i] == '\t')
        invariant i <= |line| && Trimmed(line[i..]) == Trimmed(line) && Value() == r
      {
        TrimStep(line, i);
        i := i + 1;
      }
      TrimDone(line, i);
      if i >= |line| || line[i] == '#' || line[i] == '\n' || line[i] == '\r' {
        OddStartNoChange(r, line);
        return;
      }
      var keyLen: nat := 0;
      while i + keyLen < |line| && line[i + keyLen] != '=' && keyLen < 16
        invariant i + keyLen <= |line| && keyLen <= 16 && Value() == r
        invariant forall j :: 0 <= j < keyLen ==> line[i..][j] != '='
      {
        keyLen := keyLen + 1;
      }
      if i + keyLen >= |line| || line[i + keyLen] != '=' || i + keyLen + 2 > |line| {
        NoKeyNoChange(r, line, keyLen);
        return;
      }
      var key, digit := line[i..i + keyLen], line[i + keyLen + 1];
      assert Trimmed(line)[..keyLen] == key && Trimmed(line)[keyLen + 1] == digit;
      Assign(line, keyLen, key, digit);
    }

    /** The chain of comparisons with the seven names. */
    method Assign(ghost line: string, ghost n: nat, key: string, digit: char)
      requires n + 1 < |Trimmed(line)| && Trimmed(line)[n] == '=' && Trimmed(line)[..n] == key && Trimmed(line)[n + 1] == digit
      requires forall i :: 0 <= i < n ==> Trimmed(line)[i] != '='
      modifies this
      ensures Value() == Applied(old(Value()), line)
    {
      hide Applied, Trimmed, Assigns, Name;
      NamesAre();
      ghost var r := Value();
      var value := if digit == '0' || digit == '1' then digit as int - '0' as int else -1;
      if key == "vsync" {
        KeyDecides(r, line, n, Vsync);
        if value != -1 {
          vsync := value;
        }
      } else if key == "animations" {
        KeyDecides(r, line, n, Animations);
        if value != -1 {
          animations := value;
        }
      } else if key == "boot_anim" {
        KeyDecides(r, line, n, BootAnim);
        if value != -1 {
          bootAnim := value;
        }
      } else if key == "audio" {
        KeyDecides(r, line, n, Audio);
        if value != -1 {
          audio := value;
        }
      } else if key == "theme" {
        KeyDecides(r, line, n, Theme);
        if '0' <= digit <= '1' {
          theme := digit as int - '0' as int;
        }
      } else if key == "accent" {
        KeyDecides(r, line, n, Accent);
        if '0' <= digit <= '3' {
          accent := digit as int - '0' as int;
        }
      } else if key == "glass" {
        KeyDecides(r, line, n, Glass);
        if '0' <= digit <= '2' {
          glass := digit as int - '0' as int;
        }
      } else {
        NoOtherName(key);
        NoKeyNoChange(r, line, n);
      }
    }

    /** icda_settings_load: the first file that has anything in it, folded over the defaults. */
    method Load(main: Option<string>, fallback: Option<string>) returns (ok: bool)
      modifies this
      ensures ok == (Read(main, CAP - 1) != "" || Read(fallback, CAP - 1) != "")
      ensures Read(main, CAP - 1) != "" ==> Value() == Loaded(DEFAULTS, Read(main, CAP - 1))
      ensures Read(main, CAP - 1) == "" ==> Value() == Loaded(DEFAULTS, Read(fallback, CAP - 1))
    {
      hide Applied, Loaded, Split;
      Defaults();
      EmptyAssignsNothing(DEFAULTS);
      var buf := Read(main, CAP - 1);
      if buf == "" {
        buf := Read(fallback, CAP - 1);
        if buf == "" {
          return false;
        }
      }
      var pos: nat, lineStart: nat := 0, 0;
      assert buf[0..] == buf;
      while pos <= |buf|
        invariant lineStart <= pos <= |buf| + 1
        invariant lineStart <= |buf| ==> Loaded(Value(), buf[lineStart..]) == Loaded(DEFAULTS, buf)
        invariant lineStart <= |buf| ==> pos <= |buf| && '\n' !in buf[lineStart..pos]
        invariant lineStart > |buf| ==> Value() == Loaded(DEFAULTS, buf)
      {
        if pos == |buf| || buf[pos] == '\n' {
          LoadedStep(Value(), buf, lineStart, pos);
          ApplyLine(buf[lineStart..pos]);
          lineStart := pos + 1;
        } else {
          assert buf[lineStart..pos + 1] == buf[lineStart..pos] + [buf[pos]];
        }
        pos := pos + 1;
      }
      ok := true;
    }

    /** The four flags of icda_settings_save. */
    method PutFlags(buf: array<char>, pos0: nat) returns (pos: nat)
      requires buf.Length == CAP && pos0 == |Printed(Value(), 0)| && buf[..pos0] == Printed(Value(), 0)
      modifies buf
      ensures pos == |Printed(Value(), 4)| < CAP && buf[..pos] == Printed(Value(), 4)
    {
      hide Printed, IsPair;
      FlagPairs(Value());
      pos := PutPair(buf, pos0, "vsync=", if vsync != 0 then "1\n" else "0\n", Value(), 1);
      pos := PutPair(buf, pos, "animations=", if animations != 0 then "1\n" else "0\n", Value(), 2);
      pos := PutPair(buf, pos, "boot_anim=", if bootAnim != 0 then "1\n" else "0\n", Value(), 3);
      pos := PutPair(buf, pos, "audio=", if audio != 0 then "1\n" else "0\n", Value(), 4);
    }

    /** The three clamped numbers of icda_settings_save. */
    method PutRanges(buf: array<char>, pos0: nat) returns (pos: nat)
      requires buf.Length == CAP && pos0 == |Printed(Value(), 4)| && buf[..pos0] == Printed(Value(), 4)
      modifies buf
      ensures pos == |Printed(Value(), 7)| < CAP && buf[..pos] == Printed(Value(), 7)
    {
      hide Printed, IsPair;
      RangePairs(Value());
      var themeMode := if theme < 0 then 0 else if theme > 1 then 1 else theme;
      var accentIndex := if accent < 0 then 0 else if accent > 3 then 3 else accent;
      var glassMode := if glass < 0 then 0 else if glass > 2 then 2 else glass;
      pos := PutPair(buf, pos0, "theme=", if themeMode != 0 then "1\n" else "0\n", Value(), 5);
      pos := PutPair(buf, pos, "accent=",
        if accentIndex == 0 then "0\n" else if accentIndex == 1 then "1\n" else if accentIndex == 2 then "2\n" else "3\n",
        Value(), 6);
      pos := PutPair(buf, pos, "glass=",
        if glassMode == 0 then "0\n" else if glassMode == 1 then "1\n" else "2\n", Value(), 7);
    }

    /** icda_settings_save: what it writes is the printed record, and the buffer is never too small. */
    method Save() returns (file: Option<string>)
      ensures file == Some(Printed(Value(), 7))
    {
      hide Printed, Header;
      PrintedStart(Value());
      PrintedEnds(Value(), 7);
      var buf := new char[CAP];
      var pos := Put(buf, 0, Header() + "\n");
      pos := PutFlags(buf, pos);
      pos := PutRanges(buf, pos);
      if pos == 0 || pos >= CAP {
        return None;
      }
      file := Some(buf[..pos]);
    }
  }
}
