/** Python string primitives the command loader, runner, REPL and validators
    rely on: `str.isspace`, `str.lower`, `str.strip()`, `str.split()`,
    `str.split(maxsplit=1)`, `sep.join`, `int(s)` and `str(n)`. */
module Text {
  import opened Results

  /** `str.isspace()` for one character: CPython's whitespace table. The
      argument-less `str.split()` and `str.strip()` use the same table. */
  predicate IsSpace(c: char) {
    || c == ' '
    || ('\t' <= c <= '\r')
    || ('\U{1c}' <= c <= '\U{1f}')
    || c == '\U{85}' || c == '\U{a0}' || c == '\U{1680}'
    || ('\U{2000}' <= c <= '\U{200a}')
    || c == '\U{2028}' || c == '\U{2029}' || c == '\U{202f}' || c == '\U{205f}' || c == '\U{3000}'
  }

  /** The information separators `\x1c`-`\x1f` are whitespace to
      `str.isspace()` but not to `int()`. */
  predicate IsSeparator(c: char) {
    '\U{1c}' <= c <= '\U{1f}'
  }

  /** Whitespace `int()` skips around a literal: `str.isspace()`'s table
      without the information separators. */
  predicate IsIntSpace(c: char) {
    IsSpace(c) && !IsSeparator(c)
  }

  predicate IsDigit(c: char) {
    '0' <= c <= '9'
  }

  /** `str.isalnum()` restricted to ASCII letters and digits. */
  predicate IsAlnum(c: char) {
    ('a' <= c <= 'z') || ('A' <= c <= 'Z') || IsDigit(c)
  }

  predicate AllSpace(s: string) {
    forall i :: 0 <= i < |s| ==> IsSpace(s[i])
  }

  predicate NoSpace(s: string) {
    forall i :: 0 <= i < |s| ==> !IsSpace(s[i])
  }

  /** No whitespace at either end: what `str.strip()` returns. */
  predicate IsStripped(s: string) {
    s == [] || (!IsSpace(s[0]) && !IsSpace(s[|s| - 1]))
  }

  predicate StartsWith(s: string, prefix: string) {
    |prefix| <= |s| && s[..|prefix|] == prefix
  }

  /** `str.lower()` on ASCII letters; every other character is kept. */
  function LowerChar(c: char): (r: char)
    ensures IsSpace(r) <==> IsSpace(c)
  {
    if 'A' <= c <= 'Z' then (c as int + 32) as char else c
  }

  function Lower(s: string): (r: string)
    ensures |r| == |s|
    ensures forall i :: 0 <= i < |s| ==> r[i] == LowerChar(s[i])
  {
    if s == [] then [] else [LowerChar(s[0])] + Lower(s[1..])
  }

  // ---------------------------------------------------------------------
  // str.strip()

  /** Length of the whitespace run that opens `s`. */
  function LeadingSpace(s: string): (n: nat)
    ensures n <= |s|
    ensures AllSpace(s[..n])
    ensures n < |s| ==> !IsSpace(s[n])
  {
    if |s| > 0 && IsSpace(s[0]) then
      var m := LeadingSpace(s[1..]);
      assert s[..1 + m] == [s[0]] + s[1..][..m];
      1 + m
    else
      0
  }

  /** Length of the whitespace run that closes `s`. */
  function TrailingSpace(s: string): (n: nat)
    ensures n <= |s|
    ensures AllSpace(s[|s| - n..])
    ensures n < |s| ==> !IsSpace(s[|s| - n - 1])
  {
    if |s| > 0 && IsSpace(s[|s| - 1]) then
      var init := s[..|s| - 1];
      var m := TrailingSpace(init);
      assert forall k :: |s| - (1 + m) <= k < |s| - 1 ==> s[k] == init[k];
      1 + m
    else
      0
  }

  /** `s.strip()`: `s` without its leading and trailing whitespace. The result
      is the slice of `s` between two all-whitespace borders. */
  function Strip(s: string): (r: string)
    ensures IsStripped(r)
    ensures LeadingSpace(s) + |r| <= |s|
    ensures r == s[LeadingSpace(s)..LeadingSpace(s) + |r|]
    ensures AllSpace(s[..LeadingSpace(s)])
    ensures AllSpace(s[LeadingSpace(s) + |r|..])
  {
    var lo := LeadingSpace(s);
    var n := TrailingSpace(s[lo..]);
    TailOfSuffix(s, lo, n);
    s[lo..|s| - n]
  }

  /** The last `n` characters of a suffix of `s` are those of `s`. */
  lemma TailOfSuffix(s: string, lo: nat, n: nat)
    requires lo <= |s| && n <= |s| - lo
    ensures s[lo..][|s| - lo - n..] == s[|s| - n..]
    ensures n < |s| - lo ==> s[lo..][|s| - lo - n - 1] == s[|s| - n - 1]
  {
  }

  lemma {:induction false} LeadingSpaceOfConcat(a: string, m: string)
    requires AllSpace(a)
    requires m == [] || !IsSpace(m[0])
    ensures LeadingSpace(a + m) == |a|
    decreases |a|
  {
    if a != [] {
      assert (a + m)[1..] == a[1..] + m;
      LeadingSpaceOfConcat(a[1..], m);
    } else if m != [] {
      assert (a + m)[0] == m[0];
    }
  }

  lemma {:induction false} TrailingSpaceOfConcat(m: string, b: string)
    requires AllSpace(b)
    requires m == [] || !IsSpace(m[|m| - 1])
    ensures TrailingSpace(m + b) == |b|
    decreases |b|
  {
    if b != [] {
      assert (m + b)[..|m + b| - 1] == m + b[..|b| - 1];
      TrailingSpaceOfConcat(m, b[..|b| - 1]);
    } else if m != [] {
      assert m + b == m;
    }
  }

  /** `strip()` is determined by its specification: whatever stripped core
      sits between two whitespace borders is what `strip()` returns. */
  lemma StripUnique(a: string, m: string, b: string)
    requires AllSpace(a) && AllSpace(b) && IsStripped(m)
    ensures Strip(a + m + b) == m
  {
    var s := a + m + b;
    if m == [] {
      assert s == a + b;
      assert AllSpace(s);
    } else {
      assert s == a + (m + b);
      LeadingSpaceOfConcat(a, m + b);
      assert s[|a|..] == m + b;
      TrailingSpaceOfConcat(m, b);
    }
  }

  lemma StripIdempotent(s: string)
    ensures Strip(Strip(s)) == Strip(s)
  {
    var r := Strip(s);
    assert [] + r + [] == r;
    StripUnique([], r, []);
  }

  /** `t` is `s` with all-whitespace borders cut off and nothing else
      changed: a description of stripping independent of how `Strip` scans. */
  predicate StripsTo(s: string, t: string) {
    && IsStripped(t)
    && exists i :: 0 <= i <= |s| && CutAt(s, t, i)
  }

  /** `t` sits in `s` at `i` with nothing but whitespace around it. */
  predicate CutAt(s: string, t: string, i: int) {
    0 <= i <= |s| - |t| && s[i..i + |t|] == t && AllSpace(s[..i]) && AllSpace(s[i + |t|..])
  }

  /** `Strip` is exactly the cut `StripsTo` describes, and that cut is unique. */
  lemma StripsToIffStrip(s: string, t: string)
    ensures StripsTo(s, t) <==> t == Strip(s)
  {
    StripStripsTo(s);
    if StripsTo(s, t) {
      StripsToIsStrip(s, t);
    }
  }

  lemma StripStripsTo(s: string)
    ensures StripsTo(s, Strip(s))
  {
    var t := Strip(s);
    assert CutAt(s, t, LeadingSpace(s));
  }

  lemma StripsToIsStrip(s: string, t: string)
    requires StripsTo(s, t)
    ensures t == Strip(s)
  {
    var i :| 0 <= i <= |s| && CutAt(s, t, i);
    StripAt(s, i, i + |t|);
  }

  /** A stripped middle between two all-whitespace borders is the strip. */
  lemma StripAt(s: string, lo: nat, hi: nat)
    requires lo <= hi <= |s|
    requires AllSpace(s[..lo]) && AllSpace(s[hi..]) && IsStripped(s[lo..hi])
    ensures Strip(s) == s[lo..hi]
  {
    SplitAround(s, lo, hi);
    StripUnique(s[..lo], s[lo..hi], s[hi..]);
  }

  // ---------------------------------------------------------------------
  // str.split()

  /** Length of the run of non-whitespace characters that opens `s`. */
  function TokenLen(s: string): (n: nat)
    ensures n <= |s|
    ensures NoSpace(s[..n])
    ensures n < |s| ==> IsSpace(s[n])
  {
    if |s| > 0 && !IsSpace(s[0]) then
      var m := TokenLen(s[1..]);
      assert s[..1 + m] == [s[0]] + s[1..][..m];
      1 + m
    else
      0
  }

  /** `s.split()`: the maximal runs of non-whitespace characters, in order. */
  function Words(s: string): (ws: seq<string>)
    ensures forall i :: 0 <= i < |ws| ==> |ws[i]| > 0 && NoSpace(ws[i])
    decreases |s|
  {
    if s == [] then []
    else if IsSpace(s[0]) then Words(s[1..])
    else
      var n := TokenLen(s);
      [s[..n]] + Words(s[n..])
  }

  lemma {:induction false} WordsEmptyIffAllSpace(s: string)
    ensures Words(s) == [] <==> AllSpace(s)
    decreases |s|
  {
    if s != [] {
      if IsSpace(s[0]) {
        WordsEmptyIffAllSpace(s[1..]);
        if AllSpace(s[1..]) {
          forall i | 0 <= i < |s| ensures IsSpace(s[i]) {
            if i > 0 { assert s[i] == s[1..][i - 1]; }
          }
        }
      }
    }
  }

  lemma {:induction false} WordsSpacePrefix(a: string, x: string)
    requires AllSpace(a)
    ensures Words(a + x) == Words(x)
    decreases |a|
  {
    if a != [] {
      assert (a + x)[1..] == a[1..] + x;
      WordsSpacePrefix(a[1..], x);
    } else {
      assert a + x == x;
    }
  }

  lemma {:induction false} TokenLenOfConcat(w: string, x: string)
    requires NoSpace(w)
    requires x == [] || IsSpace(x[0])
    ensures TokenLen(w + x) == |w|
    decreases |w|
  {
    if w != [] {
      assert (w + x)[1..] == w[1..] + x;
      TokenLenOfConcat(w[1..], x);
    } else {
      assert w + x == x;
    }
  }

  /** A token followed by whitespace (or the end) is split off as one word. */
  lemma WordsToken(w: string, x: string)
    requires |w| > 0 && NoSpace(w)
    requires x == [] || IsSpace(x[0])
    ensures Words(w + x) == [w] + Words(x)
  {
    TokenLenOfConcat(w, x);
    var s := w + x;
    assert s[0] == w[0];
    assert s[..|w|] == w;
    assert s[|w|..] == x;
  }

  lemma {:induction false} WordsSpaceSuffix(x: string, b: string)
    requires AllSpace(b)
    ensures Words(x + b) == Words(x)
    decreases |x|
  {
    if x == [] {
      assert x + b == b;
      WordsEmptyIffAllSpace(b);
    } else if IsSpace(x[0]) {
      assert (x + b)[1..] == x[1..] + b;
      WordsSpaceSuffix(x[1..], b);
    } else {
      var n := TokenLen(x);
      var w := x[..n];
      var rest := x[n..];
      assert x == w + rest;
      WordsToken(w, rest);
      assert x + b == w + (rest + b);
      WordsToken(w, rest + b);
      WordsSpaceSuffix(rest, b);
    }
  }

  /** Splitting ignores surrounding whitespace, so it agrees with splitting
      the stripped string. */
  lemma WordsOfStrip(s: string)
    ensures Words(Strip(s)) == Words(s)
  {
    var lo := LeadingSpace(s);
    var r := Strip(s);
    var a := s[..lo];
    var b := s[lo + |r|..];
    SplitAround(s, lo, lo + |r|);
    WordsSpacePrefix(a, r + b);
    WordsSpaceSuffix(r, b);
  }

  /** An imperative `str.split()`: one scan over `s`, which produces exactly
      the words of `s`. */
  method Split(s: string) returns (parts: seq<string>)
    ensures parts == Words(s)
  {
    parts := [];
    var i := 0;
    while i < |s|
      invariant 0 <= i <= |s|
      invariant parts + Words(s[i..]) == Words(s)
    {
      if IsSpace(s[i]) {
        WordsAtSpace(s, i);
        i := i + 1;
      } else {
        var j := i + 1;
        while j < |s| && !IsSpace(s[j])
          invariant i < j <= |s|
          invariant forall k :: i <= k < j ==> !IsSpace(s[k])
        {
          j := j + 1;
        }
        WordsAtToken(s, i, j);
        parts := parts + [s[i..j]];
        i := j;
      }
    }
    assert s[i..] == [];
  }

  /** Whitespace at `i` is skipped. */
  lemma WordsAtSpace(s: string, i: nat)
    requires i < |s| && IsSpace(s[i])
    ensures Words(s[i..]) == Words(s[i + 1..])
  {
    assert s[i..][1..] == s[i + 1..];
  }

  /** A maximal run of non-whitespace characters at `i` is the next word. */
  lemma WordsAtToken(s: string, i: nat, j: nat)
    requires i < j <= |s|
    requires forall k :: i <= k < j ==> !IsSpace(s[k])
    requires j < |s| ==> IsSpace(s[j])
    ensures Words(s[i..]) == [s[i..j]] + Words(s[j..])
  {
    assert NoSpace(s[i..j]);
    assert s[i..] == s[i..j] + s[j..];
    WordsToken(s[i..j], s[j..]);
  }

  /** `sep.join(ws)`. */
  function Join(ws: seq<string>, sep: string): (r: string)
    ensures |ws| == 1 ==> r == ws[0]
  {
    if |ws| == 0 then ""
    else if |ws| == 1 then ws[0]
    else ws[0] + sep + Join(ws[1..], sep)
  }

  /** Where `ws[i]` starts in `Join(ws, sep)`: every earlier item and one
      separator after each. */
  function JoinOffset(ws: seq<string>, sep: string, i: nat): nat
    requires i < |ws|
  {
    if i == 0 then 0 else |ws[0]| + |sep| + JoinOffset(ws[1..], sep, i - 1)
  }

  /** `w` sits in `j` at `o`; the separator follows it unless it is the
      last item, which ends `j`. */
  predicate ListedAt(j: string, o: nat, w: string, sep: string, last: bool) {
    && o + |w| <= |j| && j[o..o + |w|] == w
    && (!last ==> o + |w| + |sep| <= |j| && j[o + |w|..o + |w| + |sep|] == sep)
    && (last ==> o + |w| == |j|)
  }

  /** The joined string lists the items in order: each item at its offset,
      followed by the separator when another item comes after it, the last
      one closing the string. */
  lemma {:induction false} JoinListsInOrder(ws: seq<string>, sep: string, i: nat)
    requires i < |ws|
    ensures ListedAt(Join(ws, sep), JoinOffset(ws, sep, i), ws[i], sep, i + 1 == |ws|)
    decreases i
  {
    if |ws| > 1 {
      var head := ws[0] + sep;
      var rest := Join(ws[1..], sep);
      assert Join(ws, sep) == head + rest;
      if i == 0 {
        HeadSlices(ws[0], sep, rest);
      } else {
        JoinListsInOrder(ws[1..], sep, i - 1);
        assert ws[1..][i - 1] == ws[i];
        ListedShift(head, rest, JoinOffset(ws[1..], sep, i - 1), ws[i], sep, i + 1 == |ws|);
      }
    } else {
      assert Join(ws, sep)[0..|ws[0]|] == ws[0];
    }
  }

  /** Putting `head` in front moves a listed item by `|head|`. */
  lemma ListedShift(head: string, rest: string, o: nat, w: string, sep: string, last: bool)
    requires ListedAt(rest, o, w, sep, last)
    ensures ListedAt(head + rest, |head| + o, w, sep, last)
  {
    ShiftSlice(head, rest, o, o + |w|);
    if !last {
      ShiftSlice(head, rest, o + |w|, o + |w| + |sep|);
    }
  }

  lemma HeadSlices(a: string, b: string, c: string)
    ensures (a + b + c)[..|a|] == a
    ensures (a + b + c)[|a|..|a| + |b|] == b
  {
  }

  /** Slicing past a prefix is slicing the rest. */
  lemma ShiftSlice(a: string, b: string, x: nat, y: nat)
    requires x <= y <= |b|
    ensures |a| + y <= |a + b| && (a + b)[|a| + x..|a| + y] == b[x..y]
  {
  }

  /** Joining whitespace-free words with one space and splitting again gives
      the words back: `" ".join(ws).split() == ws`. */
  lemma {:induction false} WordsOfJoin(ws: seq<string>)
    requires forall i :: 0 <= i < |ws| ==> |ws[i]| > 0 && NoSpace(ws[i])
    ensures Words(Join(ws, " ")) == ws
    decreases |ws|
  {
    if |ws| == 0 {
    } else if |ws| == 1 {
      assert ws[0] + [] == ws[0];
      WordsToken(ws[0], []);
    } else {
      var rest := Join(ws[1..], " ");
      assert Join(ws, " ") == ws[0] + (" " + rest);
      WordsToken(ws[0], " " + rest);
      assert (" " + rest)[1..] == rest;
      WordsOfJoin(ws[1..]);
      assert ws == [ws[0]] + ws[1..];
    }
  }

  // ---------------------------------------------------------------------
  // str.split(maxsplit=1)

  /** `s.split(maxsplit=1)`: the first word, then (when anything follows it)
      the rest of the string from its next non-whitespace character to the
      end, trailing whitespace included. */
  function SplitOnce(s: string): (r: seq<string>)
    ensures |r| <= 2
    ensures r == [] <==> Words(s) == []
    ensures |r| >= 1 ==> r[0] == Words(s)[0]
    ensures |r| == 2 ==> |r[1]| > 0 && !IsSpace(r[1][0]) && Words(r[1]) == Words(s)[1..]
    ensures |r| == 2 ==> r[1][|r[1]| - 1] == s[|s| - 1]
    ensures |r| == 2 ==> SuffixAfterSpace(s, r[1]) && |r[0]| + |r[1]| < |s|
    ensures |r| == 1 ==> Words(s) == [r[0]]
  {
    var i := LeadingSpace(s);
    assert s == s[..i] + s[i..];
    WordsSpacePrefix(s[..i], s[i..]);
    if i == |s| then
      WordsEmptyIffAllSpace(s[i..]);
      []
    else
      var r := SplitWord(s[i..]);
      if |r| == 2 then
        SuffixOfSuffix(s, i, r[1]);
        r
      else
        r
  }

  /** The second part of `split(maxsplit=1)` is fixed by what it is: the
      only suffix opening at a word whose words are all but the first. */
  lemma SplitOnceRestUnique(s: string, rest: string)
    requires SuffixAfterSpace(s, rest) && !IsSpace(rest[0])
    requires Words(s) != [] && Words(rest) == Words(s)[1..]
    ensures |SplitOnce(s)| == 2 && SplitOnce(s)[1] == rest
  {
    WordsEmptyIffAllSpace(rest);
    var r := SplitOnce(s);
    assert |r| == 2;
    if |r[1]| < |rest| {
      LongerSuffixMoreWords(s, rest, r[1]);
    } else if |rest| < |r[1]| {
      LongerSuffixMoreWords(s, r[1], rest);
    }
  }

  /** Of two word-opening suffixes, the longer has more words. */
  lemma LongerSuffixMoreWords(s: string, long: string, short: string)
    requires SuffixAfterSpace(s, long) && SuffixAfterSpace(s, short)
    requires !IsSpace(long[0]) && |short| < |long|
    ensures |Words(short)| < |Words(long)|
  {
    var q := long[..|long| - |short|];
    assert long == q + short;
    assert q[|q| - 1] == s[|s| - |short| - 1];
    assert q[0] == long[0];
    WordsEmptyIffAllSpace(q);
    WordsAppend(q, short);
  }

  /** Words do not run across a whitespace character at the end of `p`. */
  lemma {:induction false} WordsAppend(p: string, x: string)
    requires p == [] || IsSpace(p[|p| - 1])
    ensures Words(p + x) == Words(p) + Words(x)
    decreases |p|
  {
    if p == [] {
      assert p + x == x;
    } else if IsSpace(p[0]) {
      assert (p + x)[1..] == p[1..] + x;
      WordsAppend(p[1..], x);
    } else {
      var n := TokenLen(p);
      var tail := p[n..];
      assert tail[|tail| - 1] == p[|p| - 1];
      WordsAppend(tail, x);
      WordsTokenAppend(p[..n], tail, x);
      assert p == p[..n] + tail;
    }
  }

  /** The token step of `WordsAppend`: the word in front stays one word on
      both sides of the equation. */
  lemma WordsTokenAppend(w: string, tail: string, x: string)
    requires |w| > 0 && NoSpace(w)
    requires |tail| > 0 && IsSpace(tail[0])
    requires Words(tail + x) == Words(tail) + Words(x)
    ensures Words(w + tail + x) == Words(w + tail) + Words(x)
  {
    var a := tail + x;
    assert w + tail + x == w + a;
    WordsToken(w, a);
    WordsToken(w, tail);
  }

  /** A word-opening suffix of `s[i..]` is one of `s`. */
  lemma SuffixOfSuffix(s: string, i: nat, rest: string)
    requires i <= |s| && SuffixAfterSpace(s[i..], rest)
    ensures SuffixAfterSpace(s, rest)
  {
    TailOfSuffix(s, i, |rest|);
  }

  /** `rest` is a suffix of `s` that opens with a non-whitespace character
      right after a whitespace one: it starts at the beginning of a word. */
  predicate SuffixAfterSpace(s: string, rest: string) {
    && 0 < |rest| < |s|
    && rest == s[|s| - |rest|..]
    && IsSpace(s[|s| - |rest| - 1])
  }

  /** `split(maxsplit=1)` of a string that opens with a word. */
  function SplitWord(t: string): (r: seq<string>)
    requires |t| > 0 && !IsSpace(t[0])
    ensures 1 <= |r| <= 2 && r[0] == Words(t)[0]
    ensures |r| == 2 ==> |r[1]| > 0 && !IsSpace(r[1][0]) && Words(r[1]) == Words(t)[1..]
    ensures |r| == 2 ==> r[1][|r[1]| - 1] == t[|t| - 1]
    ensures |r| == 2 ==> SuffixAfterSpace(t, r[1]) && |r[0]| + |r[1]| < |t|
    ensures |r| == 1 ==> Words(t) == [r[0]]
  {
    var j := TokenLen(t);
    var after := t[j..];
    var k := LeadingSpace(after);
    WordThenRest(t);
    WordGapRest(t);
    if k == |after| then [t[..j]] else [t[..j], after[k..]]
  }

  /** The first word of `t` and what follows the whitespace after it. */
  lemma WordThenRest(t: string)
    requires |t| > 0 && !IsSpace(t[0])
    ensures var j := TokenLen(t); var after := t[j..]; var k := LeadingSpace(after);
      && 0 < j && |Words(t)| > 0 && Words(t)[0] == t[..j]
      && (k == |after| ==> Words(t) == [t[..j]])
      && (k < |after| ==>
            && !IsSpace(after[k..][0]) && Words(after[k..]) == Words(t)[1..]
            && after[k..][|after[k..]| - 1] == t[|t| - 1])
  {
    var j := TokenLen(t);
    var after := t[j..];
    var k := LeadingSpace(after);
    WordsAfterToken(t);
    if k == |after| {
      WordsEmptyIffAllSpace(after[k..]);
    } else {
      assert after[|after| - 1] == t[|t| - 1];
    }
  }

  /** The rest after the first word and its whitespace is a word-opening
      suffix of `t`. */
  lemma WordGapRest(t: string)
    requires |t| > 0 && !IsSpace(t[0])
    ensures var j := TokenLen(t); var after := t[j..]; var k := LeadingSpace(after);
      k < |after| ==> SuffixAfterSpace(t, after[k..]) && j + |after[k..]| < |t|
  {
    var j := TokenLen(t);
    var after := t[j..];
    var k := LeadingSpace(after);
    if k < |after| {
      assert IsSpace(after[0]);
      assert after[..k][k - 1] == t[j + k - 1];
      assert after[k] == t[j + k];
      RestIsSuffix(t, j, k);
    }
  }

  /** What follows a whitespace run that ends before the end of `t` is a
      word-opening suffix of `t`. */
  lemma RestIsSuffix(t: string, j: nat, k: nat)
    requires 0 < k && j + k < |t| && IsSpace(t[j + k - 1]) && !IsSpace(t[j + k])
    ensures SuffixAfterSpace(t, t[j..][k..]) && j + |t[j..][k..]| < |t|
  {
    assert t[j..][k..] == t[j + k..];
  }

  lemma WordsUnfold(t: string)
    requires |t| > 0 && !IsSpace(t[0])
    ensures Words(t) == [t[..TokenLen(t)]] + Words(t[TokenLen(t)..])
  {
  }

  lemma WordsAfterToken(t: string)
    requires |t| > 0 && !IsSpace(t[0])
    ensures var j := TokenLen(t); var after := t[j..];
      0 < j && Words(t) == [t[..j]] + Words(after[LeadingSpace(after)..])
  {
    var j := TokenLen(t);
    var after := t[j..];
    WordsUnfold(t);
    var k := LeadingSpace(after);
    SplitAt(after, k);
    WordsSpacePrefix(after[..k], after[k..]);
  }

  lemma SplitAround(s: string, lo: nat, hi: nat)
    requires lo <= hi <= |s|
    ensures s[..lo] + (s[lo..hi] + s[hi..]) == s
    ensures s[..lo] + s[lo..hi] + s[hi..] == s
  {
  }

  lemma SplitAt(s: string, k: nat)
    requires k <= |s|
    ensures s[..k] + s[k..] == s
  {
  }

  // ---------------------------------------------------------------------
  // str(n) and int(s)

  function DigitChar(d: nat): (c: char)
    requires d < 10
    ensures IsDigit(c) && c as int - '0' as int == d
  {
    ('0' as int + d) as char
  }

  /** `str(n)` for a natural number: its decimal digits, no leading zero. */
  function NatToString(n: nat): (s: string)
    ensures |s| > 0
    ensures forall i :: 0 <= i < |s| ==> IsDigit(s[i])
    decreases n
  {
    if n < 10 then [DigitChar(n)] else NatToString(n / 10) + [DigitChar(n % 10)]
  }

  /** `str(i)` for any integer. */
  function IntToString(i: int): (s: string)
    ensures |s| > 0
    ensures i < 0 <==> s[0] == '-'
  {
    if i < 0 then "-" + NatToString(-i) else NatToString(i)
  }

  /** The body of a base-10 literal that `int()` accepts: ASCII digits, with
      single underscores allowed between two digits. */
  predicate DigitString(d: string)
    decreases |d|
  {
    && |d| > 0
    && IsDigit(d[0])
    && (|d| == 1 || DigitString(d[1..]) || (d[1] == '_' && DigitString(d[2..])))
  }

  /** The value of a digit string, underscores skipped. */
  function DigitsValue(d: string): nat
    decreases |d|
  {
    if d == [] then 0
    else if IsDigit(d[|d| - 1]) then 10 * DigitsValue(d[..|d| - 1]) + (d[|d| - 1] as int - '0' as int)
    else DigitsValue(d[..|d| - 1])
  }

  /** A literal with no surrounding whitespace: one optional sign, then a
      digit string. */
  function ParseLiteral(t: string): (r: Option<int>)
    ensures r.Some? ==> |t| > 0 && (IsDigit(t[0]) || t[0] == '+' || t[0] == '-')
  {
    if |t| > 0 && (t[0] == '-' || t[0] == '+') then
      if DigitString(t[1..]) then
        Some(if t[0] == '-' then 0 - DigitsValue(t[1..]) else DigitsValue(t[1..]))
      else None
    else if DigitString(t) then Some(DigitsValue(t))
    else None
  }

  /** `int(s)` in base 10: whitespace around the literal is ignored, except
      the information separators; anything that is not a literal is a
      `ValueError` (`None`). */
  function ParseInt(s: string): (r: Option<int>)
    ensures |s| > 0 && IsSeparator(s[0]) ==> r.None?
    ensures r.Some? ==> exists i :: 0 <= i < |s| && IsDigit(s[i])
    decreases |s|
  {
    if |s| > 0 && IsIntSpace(s[0]) then ParseInt(s[1..])
    else if |s| > 0 && IsIntSpace(s[|s| - 1]) then ParseInt(s[..|s| - 1])
    else ParseLiteral(s)
  }

  /** Whitespace at the front of `s` does not survive `strip()`. */
  lemma StripDropsLeadingSpace(s: string)
    requires |s| > 0 && IsSpace(s[0])
    ensures Strip(s[1..]) == Strip(s)
  {
    var lo := LeadingSpace(s[1..]);
    assert LeadingSpace(s) == 1 + lo;
    assert s[1 + lo..] == s[1..][lo..];
  }

  /** Whitespace at the end of a string that opens with a non-whitespace
      character does not survive `strip()`. */
  lemma StripDropsTrailingSpace(s: string)
    requires |s| > 1 && !IsSpace(s[0]) && IsSpace(s[|s| - 1])
    ensures Strip(s[..|s| - 1]) == Strip(s)
  {
    var x := s[..|s| - 1];
    assert x[0] == s[0];
    assert LeadingSpace(s) == 0 && LeadingSpace(x) == 0;
    assert s[0..] == s && x[0..] == x;
    var n := TrailingSpace(x);
    assert TrailingSpace(s) == 1 + n;
    assert s[..|s| - (1 + n)] == x[..|x| - n];
  }

  predicate NoSeparator(s: string) {
    forall i :: 0 <= i < |s| ==> !IsSeparator(s[i])
  }

  /** On a string without information separators, `int(s)` reads the
      stripped string: whitespace around a literal never matters, and
      whitespace alone is not a number. */
  lemma {:induction false} ParseIntOfStrip(s: string)
    requires NoSeparator(s)
    ensures ParseInt(s) == ParseLiteral(Strip(s))
    decreases |s|
  {
    if |s| > 0 && IsIntSpace(s[0]) {
      StripDropsLeadingSpace(s);
      ParseIntOfStrip(s[1..]);
    } else if |s| > 0 && IsIntSpace(s[|s| - 1]) {
      StripDropsTrailingSpace(s);
      ParseIntOfStrip(s[..|s| - 1]);
    } else {
      assert s == [] || (!IsSpace(s[0]) && !IsSpace(s[|s| - 1]));
      assert [] + s + [] == s;
      StripUnique([], s, []);
    }
  }

  /** Where `int()` and `strip()` part ways: an information separator in
      front of a number is stripped, but `int()` rejects the string. */
  lemma SeparatorBlocksParseInt(c: char, n: nat)
    requires IsSeparator(c)
    ensures Strip([c] + NatToString(n)) == NatToString(n)
    ensures ParseInt([c] + NatToString(n)) == None
  {
    var d := NatToString(n);
    assert !IsSpace(d[0]) && !IsSpace(d[|d| - 1]);
    StripAfterOne(c, d);
    ParseIntAtLiteralStart([c] + d);
  }

  lemma StripAfterOne(c: char, d: string)
    requires IsSpace(c) && |d| > 0 && !IsSpace(d[0]) && !IsSpace(d[|d| - 1])
    ensures Strip([c] + d) == d
  {
    assert [c] + d == [c] + d + [];
    StripUnique([c], d, []);
  }

  /** A string with no `int()` whitespace at its ends is read as a literal;
      one opening with anything but a digit or a sign is no number. */
  lemma ParseIntAtLiteralStart(s: string)
    requires |s| > 0 && !IsIntSpace(s[0]) && !IsIntSpace(s[|s| - 1])
    ensures ParseInt(s) == ParseLiteral(s)
    ensures !(IsDigit(s[0]) || s[0] == '+' || s[0] == '-') ==> ParseInt(s) == None
  {
  }

  lemma {:induction false} DigitsAreDigitString(d: string)
    requires |d| > 0
    requires forall i :: 0 <= i < |d| ==> IsDigit(d[i])
    ensures DigitString(d)
    decreases |d|
  {
    if |d| > 1 {
      DigitsAreDigitString(d[1..]);
    }
  }

  lemma {:induction false} DigitsValueOfNat(n: nat)
    ensures DigitsValue(NatToString(n)) == n
    decreases n
  {
    var s := NatToString(n);
    if n < 10 {
      assert s[..0] == [];
    } else {
      assert s[..|s| - 1] == NatToString(n / 10);
      DigitsValueOfNat(n / 10);
    }
  }

  /** What `str(n)` prints, `int()` reads back. */
  lemma ParseIntOfNat(n: nat)
    ensures ParseInt(NatToString(n)) == Some(n)
  {
    var s := NatToString(n);
    assert !IsIntSpace(s[0]) && !IsIntSpace(s[|s| - 1]);
    assert ParseInt(s) == ParseLiteral(s);
    assert !(s[0] == '-' || s[0] == '+');
    DigitsAreDigitString(s);
    DigitsValueOfNat(n);
  }
}
