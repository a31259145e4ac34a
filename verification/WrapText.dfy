/**
 * What a word wrapper sees: the words and line breaks of a text.
 * Throughout, the text is the first `n` characters of `s`, read from index `i` on.
 */
module WrapText {
  import opened Bytes

  const SPACE: byte := 32
  const NEWLINE: byte := 10

  datatype Token = Break | Word(from: nat, len: nat)

  predicate IsSeparator(c: byte) {
    c == SPACE || c == NEWLINE
  }

  ghost predicate Visible(s: seq<byte>, i: int, j: int) {
    0 <= i && j <= |s| && forall k :: i <= k < j ==> !IsSeparator(s[k])
  }

  /** The first index from `i` on that holds no space. */
  function SkipSpaces(s: seq<byte>, i: nat, n: nat): (j: nat)
    requires i <= n <= |s|
    ensures i <= j <= n && (forall k :: i <= k < j ==> s[k] == SPACE) && (j < n ==> s[j] != SPACE)
    decreases n - i
  {
    if i < n && s[i] == SPACE then SkipSpaces(s, i + 1, n) else i
  }

  /** The end of the run of visible characters that starts at `i`. */
  function WordEnd(s: seq<byte>, i: nat, n: nat): (j: nat)
    requires i <= n <= |s|
    ensures i <= j <= n && Visible(s, i, j) && (j < n ==> IsSeparator(s[j]))
    decreases n - i
  {
    if i < n && !IsSeparator(s[i]) then WordEnd(s, i + 1, n) else i
  }

  /** The words and line breaks of the text, in order; spaces only separate. */
  function Tokens(s: seq<byte>, i: nat, n: nat): seq<Token>
    requires i <= n <= |s|
    decreases n - i
  {
    var j := SkipSpaces(s, i, n);
    if j == n then []
    else if s[j] == NEWLINE then [Break] + Tokens(s, j + 1, n)
    else var e := WordEnd(s, j, n); [Word(j, e - j)] + Tokens(s, e, n)
  }

  // ------------------------------------------------------------- over-wide words

  /** Some `max + 1` consecutive characters are all visible: a word wider than the row. */
  ghost predicate HasWideWord(s: seq<byte>, i: nat, n: nat, max: nat) {
    exists a :: WideAt(s, i, n, a, max)
  }

  ghost predicate WideAt(s: seq<byte>, i: nat, n: nat, a: int, max: nat) {
    i <= a && a + max < n && Visible(s, a, a + max + 1)
  }

  predicate Narrow(toks: seq<Token>, max: nat) {
    forall k :: 0 <= k < |toks| && toks[k].Word? ==> toks[k].len <= max
  }

  lemma WideWordLater(s: seq<byte>, i: nat, j: nat, n: nat, max: nat)
    requires i <= j <= n <= |s|
    requires forall k :: i <= k < j ==> IsSeparator(s[k])
    ensures HasWideWord(s, i, n, max) <==> HasWideWord(s, j, n, max)
  {
    if HasWideWord(s, i, n, max) {
      var a :| WideAt(s, i, n, a, max);
      assert !IsSeparator(s[a]);
      assert WideAt(s, j, n, a, max);
    }
    if HasWideWord(s, j, n, max) {
      var a :| WideAt(s, j, n, a, max);
      assert WideAt(s, i, n, a, max);
    }
  }

  lemma WideWordAfterWord(s: seq<byte>, j: nat, e: nat, n: nat, max: nat)
    requires j < e <= n <= |s| && Visible(s, j, e) && (e < n ==> IsSeparator(s[e]))
    ensures HasWideWord(s, j, n, max) <==> e - j > max || HasWideWord(s, e, n, max)
  {
    if e - j > max {
      assert WideAt(s, j, n, j, max);
    }
    if HasWideWord(s, e, n, max) {
      var a :| WideAt(s, e, n, a, max);
      assert WideAt(s, j, n, a, max);
    }
    if HasWideWord(s, j, n, max) && e - j <= max {
      var a :| WideAt(s, j, n, a, max);
      assert e < n && !IsSeparator(s[a + max]) && IsSeparator(s[e]);
      assert e < a || a + max < e;
      assert WideAt(s, e, n, a, max);
    }
  }

  lemma NarrowCons(t: Token, rest: seq<Token>, max: nat)
    ensures Narrow([t] + rest, max) <==> (t.Word? ==> t.len <= max) && Narrow(rest, max)
  {
    if Narrow([t] + rest, max) {
      assert ([t] + rest)[0] == t;
      forall k | 0 <= k < |rest| && rest[k].Word? ensures rest[k].len <= max {
        assert ([t] + rest)[k + 1] == rest[k];
      }
    }
  }

  lemma {:induction false} SkipSpacesSooner(s: seq<byte>, i: nat, m: nat, n: nat)
    requires i <= m <= n <= |s| && SkipSpaces(s, i, n) <= m
    ensures SkipSpaces(s, i, m) == SkipSpaces(s, i, n)
    decreases n - i
  {
    if i < m && s[i] == SPACE {
      SkipSpacesSooner(s, i + 1, m, n);
    }
  }

  lemma {:induction false} WordEndSooner(s: seq<byte>, i: nat, m: nat, n: nat)
    requires i <= m <= n <= |s| && WordEnd(s, i, n) <= m
    ensures WordEnd(s, i, m) == WordEnd(s, i, n)
    decreases n - i
  {
    if i < m && !IsSeparator(s[i]) {
      WordEndSooner(s, i + 1, m, n);
    }
  }

  /** `head` is the first token from `i` on, and it ends at `e`. */
  ghost predicate CutsAt(s: seq<byte>, i: nat, n: nat, head: Token, e: nat)
    requires i <= n <= |s|
  {
    var j := SkipSpaces(s, i, n);
    j < n && if s[j] == NEWLINE then head == Break && e == j + 1 else e == WordEnd(s, j, n) && head == Word(j, e - j)
  }

  /** The first token of a text, where it ends, and that every longer prefix starts with it too. */
  lemma FirstCut(s: seq<byte>, i: nat, n: nat) returns (head: Token, e: nat)
    requires i <= n <= |s| && Tokens(s, i, n) != []
    ensures i < e <= n && CutsAt(s, i, n, head, e)
    ensures forall m :: e <= m <= n ==> Tokens(s, i, m) == [head] + Tokens(s, e, m)
  {
    var j := SkipSpaces(s, i, n);
    e := if s[j] == NEWLINE then j + 1 else WordEnd(s, j, n);
    head := if s[j] == NEWLINE then Break else Word(j, e - j);
    forall m | e <= m <= n ensures Tokens(s, i, m) == [head] + Tokens(s, e, m) {
      SkipSpacesSooner(s, i, m, n);
      if s[j] != NEWLINE {
        WordEndSooner(s, j, m, n);
      }
    }
  }

  lemma TakeCons(head: Token, rest: seq<Token>, k: nat)
    requires 0 < k <= 1 + |rest|
    ensures ([head] + rest)[..k] == [head] + rest[..k - 1]
  {
  }

  /** Every prefix of the tokens of a text is the tokens of a prefix of the text. */
  lemma {:induction false} TokenPrefix(s: seq<byte>, i: nat, n: nat, k: nat) returns (m: nat)
    requires i <= n <= |s| && k <= |Tokens(s, i, n)|
    ensures i <= m <= n && Tokens(s, i, m) == Tokens(s, i, n)[..k]
    decreases n - i
  {
    if k == 0 {
      m := i;
    } else {
      var head, e := FirstCut(s, i, n);
      m := TokenPrefix(s, e, n, k - 1);
      TakeCons(head, Tokens(s, e, n), k);
    }
  }

  lemma WideWordStep(s: seq<byte>, i: nat, n: nat, max: nat, head: Token, e: nat)
    requires i < e <= n <= |s| && CutsAt(s, i, n, head, e)
    ensures HasWideWord(s, i, n, max) <==> (head.Word? && head.len > max) || HasWideWord(s, e, n, max)
  {
    var j := SkipSpaces(s, i, n);
    WideWordLater(s, i, j, n, max);
    if head == Break {
      WideWordLater(s, j, e, n, max);
    } else {
      WideWordAfterWord(s, j, e, n, max);
    }
  }

  /** The words are narrow exactly when no wide run of visible characters occurs. */
  lemma {:induction false} NarrowIffNoWideWord(s: seq<byte>, i: nat, n: nat, max: nat)
    requires i <= n <= |s|
    ensures Narrow(Tokens(s, i, n), max) <==> !HasWideWord(s, i, n, max)
    decreases n - i
  {
    if Tokens(s, i, n) == [] {
      WideWordLater(s, i, n, n, max);
    } else {
      var head, e := FirstCut(s, i, n);
      WideWordStep(s, i, n, max, head, e);
      NarrowCons(head, Tokens(s, e, n), max);
      NarrowIffNoWideWord(s, e, n, max);
    }
  }
}
