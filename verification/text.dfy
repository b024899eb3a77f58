/** String operations the program borrows from Rust's standard library:
    prefix and substring tests, `str::replace`, `join`, `str::lines`,
    decimal rendering of integers and UTF-8 byte lengths. */
module Text {

  /** `s.starts_with(p)` */
  predicate StartsWith(s: string, p: string) {
    |p| <= |s| && s[..|p|] == p
  }

  /** `s.ends_with(p)` */
  predicate EndsWith(s: string, p: string) {
    |p| <= |s| && s[|s| - |p|..] == p
  }

  /** The word `w` occurs in `s` starting at index `i`. */
  predicate HasAt(s: string, i: int, w: string) {
    0 <= i && i + |w| <= |s| && s[i..i + |w|] == w
  }

  /** The word `w` occurs in `s` at some index `k` or later. */
  predicate OccursFrom(s: string, w: string, k: int) {
    exists i | k <= i <= |s| :: HasAt(s, i, w)
  }

  /** `s.contains(w)` */
  predicate Contains(s: string, w: string) {
    OccursFrom(s, w, 0)
  }

  lemma HasAtTail(s: string, i: int, w: string)
    requires |s| > 0 && 0 <= i
    ensures HasAt(s[1..], i, w) <==> HasAt(s, i + 1, w)
  {
    if i + |w| <= |s| - 1 {
      assert s[1..][i..i + |w|] == s[i + 1..i + 1 + |w|];
    }
  }

  lemma HasAtDrop(s: string, n: nat, i: int, w: string)
    requires n <= |s| && 0 <= i
    ensures HasAt(s[n..], i, w) <==> HasAt(s, i + n, w)
  {
    if i + |w| <= |s| - n {
      assert s[n..][i..i + |w|] == s[i + n..i + n + |w|];
    }
  }

  /** An occurrence in `s` that is not at index 0 is an occurrence in `s[1..]`. */
  lemma ContainsTail(s: string, w: string)
    requires |s| > 0 && Contains(s, w) && !HasAt(s, 0, w)
    ensures Contains(s[1..], w)
  {
    var i :| 0 <= i <= |s| && HasAt(s, i, w);
    HasAtTail(s, i - 1, w);
  }

  /** No occurrence in `s` means no occurrence in `s[1..]`. */
  lemma AbsentTail(s: string, w: string)
    requires |s| > 0 && !Contains(s, w)
    ensures !Contains(s[1..], w)
  {
    forall i | 0 <= i <= |s| - 1
      ensures !HasAt(s[1..], i, w)
    {
      HasAtTail(s, i, w);
    }
  }

  /** Rust's `s.replace(pat, rep)`: every leftmost non-overlapping occurrence
      of `pat`, scanning from the left, is replaced by `rep`. */
  function Replace(s: string, pat: string, rep: string): string
    requires |pat| > 0
    decreases |s|
  {
    if |s| < |pat| then s
    else if s[..|pat|] == pat then rep + Replace(s[|pat|..], pat, rep)
    else [s[0]] + Replace(s[1..], pat, rep)
  }

  /** A character that is not part of the word is never lost: the result
      holds at least as many copies of it as the text. */
  lemma {:induction false} ReplaceKeeps(s: string, pat: string, rep: string, c: char)
    requires |pat| > 0 && c !in pat
    ensures multiset(s)[c] <= multiset(Replace(s, pat, rep))[c]
    decreases |s|
  {
    if |s| >= |pat| {
      if s[..|pat|] == pat {
        var tail := s[|pat|..];
        ReplaceKeeps(tail, pat, rep, c);
        assert s == pat + tail;
        assert multiset(s) == multiset(pat) + multiset(tail);
        assert multiset(rep + Replace(tail, pat, rep)) == multiset(rep) + multiset(Replace(tail, pat, rep));
      } else {
        var tail := s[1..];
        ReplaceKeeps(tail, pat, rep, c);
        assert s == [s[0]] + tail;
        assert multiset(s) == multiset([s[0]]) + multiset(tail);
        assert multiset([s[0]] + Replace(tail, pat, rep)) == multiset([s[0]]) + multiset(Replace(tail, pat, rep));
      }
    }
  }

  /** Replacing a word that does not occur changes nothing. */
  lemma {:induction false} ReplaceAbsent(s: string, pat: string, rep: string)
    requires |pat| > 0 && !Contains(s, pat)
    ensures Replace(s, pat, rep) == s
    decreases |s|
  {
    if |s| >= |pat| {
      assert !HasAt(s, 0, pat);
      AbsentTail(s, pat);
      ReplaceAbsent(s[1..], pat, rep);
    }
  }

  /** A replacement by something no longer never lengthens the text, and
      shortens it whenever the word occurs. */
  lemma {:induction false} ReplaceShrinks(s: string, pat: string, rep: string)
    requires |rep| < |pat|
    ensures |Replace(s, pat, rep)| <= |s|
    ensures Contains(s, pat) ==> |Replace(s, pat, rep)| < |s|
    decreases |s|
  {
    if |s| < |pat| {
    } else if s[..|pat|] == pat {
      ReplaceShrinks(s[|pat|..], pat, rep);
    } else {
      if Contains(s, pat) {
        ContainsTail(s, pat);
      }
      ReplaceShrinks(s[1..], pat, rep);
    }
  }

  /** A prefix without the first character of `pat` passes through unchanged. */
  lemma {:induction false} ReplaceMissing(x: string, y: string, pat: string, rep: string)
    requires |pat| > 0 && pat[0] !in x
    ensures Replace(x + y, pat, rep) == x + Replace(y, pat, rep)
    decreases |x|
  {
    if |x| > 0 {
      var s := x + y;
      if |s| >= |pat| {
        assert s[0] == x[0] && s[..|pat|][0] == s[0];
        assert s[1..] == x[1..] + y;
        ReplaceMissing(x[1..], y, pat, rep);
      } else {
        assert Replace(y, pat, rep) == y;
      }
    } else {
      assert x + y == y;
    }
  }

  /** A prefix whose second character breaks `pat`, and which holds the
      first character of `pat` nowhere after its start, passes through unchanged. */
  lemma ReplaceLead(x: string, y: string, pat: string, rep: string)
    requires 2 <= |pat| <= |x| && x[1] != pat[1] && pat[0] !in x[1..]
    ensures Replace(x + y, pat, rep) == x + Replace(y, pat, rep)
  {
    var s := x + y;
    assert s[..|pat|] != pat by {
      assert s[..|pat|][1] == x[1];
    }
    assert Replace(s, pat, rep) == [s[0]] + Replace(s[1..], pat, rep);
    assert s[1..] == x[1..] + y;
    ReplaceMissing(x[1..], y, pat, rep);
    var tail := Replace(y, pat, rep);
    assert [s[0]] + (x[1..] + tail) == x + tail;
  }

  /** An occurrence at the front becomes `rep`. */
  lemma ReplaceHit(y: string, pat: string, rep: string)
    requires |pat| > 0
    ensures Replace(pat + y, pat, rep) == rep + Replace(y, pat, rep)
  {
    var s := pat + y;
    assert s[..|pat|] == pat;
    assert s[|pat|..] == y;
  }

  /** Every character of a replacement's result comes from the input or from `rep`. */
  lemma {:induction false} ReplaceChars(s: string, pat: string, rep: string)
    requires |pat| > 0
    ensures forall c | c in Replace(s, pat, rep) :: c in s || c in rep
    decreases |s|
  {
    if |s| >= |pat| {
      if s[..|pat|] == pat {
        ReplaceChars(s[|pat|..], pat, rep);
        forall c | c in Replace(s[|pat|..], pat, rep)
          ensures c in s || c in rep
        {
          assert c in s[|pat|..] ==> c in s;
        }
      } else {
        ReplaceChars(s[1..], pat, rep);
        forall c | c in Replace(s[1..], pat, rep)
          ensures c in s || c in rep
        {
          assert c in s[1..] ==> c in s;
        }
      }
    }
  }

  /** The loop `while s.contains(pat) { s = s.replace(pat, rep) }`, which
      terminates because every pass shortens the text. */
  function Squeeze(s: string, pat: string, rep: string): (r: string)
    requires |rep| < |pat|
    ensures !Contains(r, pat)
    ensures |r| <= |s|
    ensures !Contains(s, pat) ==> r == s
    decreases |s|
  {
    if Contains(s, pat) then
      ReplaceShrinks(s, pat, rep);
      Squeeze(Replace(s, pat, rep), pat, rep)
    else s
  }

  /** A round of replacement never changes what squeezing ends with. */
  lemma SqueezeStep(s: string, pat: string, rep: string)
    requires |rep| < |pat|
    ensures Squeeze(s, pat, rep) == Squeeze(Replace(s, pat, rep), pat, rep)
  {
    if !Contains(s, pat) {
      ReplaceAbsent(s, pat, rep);
    }
  }

  /** A text `Replace` leaves alone is already squeezed. */
  lemma SqueezeFixed(s: string, pat: string, rep: string)
    requires |rep| < |pat| && Replace(s, pat, rep) == s
    ensures Squeeze(s, pat, rep) == s
  {
    ReplaceShrinks(s, pat, rep);
  }

  /** Squeezing twice is the same as squeezing once. */
  lemma SqueezeIdempotent(s: string, pat: string, rep: string)
    requires |rep| < |pat|
    ensures Squeeze(Squeeze(s, pat, rep), pat, rep) == Squeeze(s, pat, rep)
  {
  }

  /** Every character of a squeezed text comes from the input or from `rep`. */
  lemma {:induction false} SqueezeChars(s: string, pat: string, rep: string)
    requires |rep| < |pat|
    ensures forall c | c in Squeeze(s, pat, rep) :: c in s || c in rep
    decreases |s|
  {
    if Contains(s, pat) {
      ReplaceShrinks(s, pat, rep);
      ReplaceChars(s, pat, rep);
      SqueezeChars(Replace(s, pat, rep), pat, rep);
    }
  }

  /** `xs.join(sep)` */
  function Join(xs: seq<string>, sep: string): string
    decreases |xs|
  {
    if |xs| == 0 then ""
    else if |xs| == 1 then xs[0]
    else xs[0] + sep + Join(xs[1..], sep)
  }

  lemma JoinCons(x: string, ys: seq<string>, sep: string)
    requires |ys| >= 1
    ensures Join([x] + ys, sep) == x + sep + Join(ys, sep)
  {
    assert ([x] + ys)[1..] == ys;
  }

  lemma {:induction false} JoinAppend(xs: seq<string>, y: string, sep: string)
    requires |xs| >= 1
    ensures Join(xs + [y], sep) == Join(xs, sep) + sep + y
    decreases |xs|
  {
    if |xs| == 1 {
      assert xs + [y] == [xs[0], y];
      assert (xs + [y])[1..] == [y];
    } else {
      assert (xs + [y])[1..] == xs[1..] + [y];
      JoinAppend(xs[1..], y, sep);
    }
  }

  /** `s` with every `c` removed. */
  function Without(s: string, c: char): (r: string)
    ensures c !in r
    ensures |r| <= |s|
  {
    if |s| == 0 then [] else (if s[0] == c then [] else [s[0]]) + Without(s[1..], c)
  }

  lemma {:induction false} WithoutConcat(a: string, b: string, c: char)
    ensures Without(a + b, c) == Without(a, c) + Without(b, c)
    decreases |a|
  {
    if |a| > 0 {
      assert (a + b)[1..] == a[1..] + b;
      WithoutConcat(a[1..], b, c);
    } else {
      assert a + b == b;
    }
  }

  lemma {:induction false} WithoutOnly(s: string, c: char)
    requires forall k | 0 <= k < |s| :: s[k] == c
    ensures Without(s, c) == []
    decreases |s|
  {
    if |s| > 0 {
      WithoutOnly(s[1..], c);
    }
  }

  /** Replacing a run of `c` by another run of `c` keeps every other character
      in place: only copies of `c` are lost or gained. */
  lemma {:induction false} ReplaceWithout(s: string, pat: string, rep: string, c: char)
    requires |pat| > 0
    requires forall k | 0 <= k < |pat| :: pat[k] == c
    requires forall k | 0 <= k < |rep| :: rep[k] == c
    ensures Without(Replace(s, pat, rep), c) == Without(s, c)
    decreases |s|
  {
    if |s| >= |pat| {
      if s[..|pat|] == pat {
        var rest := Replace(s[|pat|..], pat, rep);
        ReplaceWithout(s[|pat|..], pat, rep, c);
        WithoutConcat(rep, rest, c);
        WithoutOnly(rep, c);
        assert s == pat + s[|pat|..];
        WithoutConcat(pat, s[|pat|..], c);
        WithoutOnly(pat, c);
      } else {
        var rest := Replace(s[1..], pat, rep);
        ReplaceWithout(s[1..], pat, rep, c);
        WithoutConcat([s[0]], rest, c);
      }
    }
  }

  /** Squeezing a run of `c` into a shorter run of `c` keeps every other character. */
  lemma {:induction false} SqueezeWithout(s: string, pat: string, rep: string, c: char)
    requires |rep| < |pat|
    requires forall k | 0 <= k < |pat| :: pat[k] == c
    requires forall k | 0 <= k < |rep| :: rep[k] == c
    ensures Without(Squeeze(s, pat, rep), c) == Without(s, c)
    decreases |s|
  {
    if Contains(s, pat) {
      ReplaceShrinks(s, pat, rep);
      ReplaceWithout(s, pat, rep, c);
      SqueezeWithout(Replace(s, pat, rep), pat, rep, c);
    }
  }

  /** Index of the first `c` in `s`, or `|s|` when there is none. */
  function IndexOf(s: string, c: char): (r: nat)
    ensures r <= |s|
    ensures r < |s| ==> s[r] == c
    ensures forall k | 0 <= k < r :: s[k] != c
  {
    if |s| == 0 then 0
    else if s[0] == c then 0
    else 1 + IndexOf(s[1..], c)
  }

  /** `s.split(c)`: the pieces between separators, always at least one. */
  function Split(s: string, c: char): (r: seq<string>)
    ensures |r| >= 1
    ensures forall k | 0 <= k < |r| :: c !in r[k]
    decreases |s|
  {
    var i := IndexOf(s, c);
    if i == |s| then [s]
    else [s[..i]] + Split(s[i + 1..], c)
  }

  /** Joining the pieces of a split with the separator gives the text back. */
  lemma {:induction false} SplitJoin(s: string, c: char)
    ensures Join(Split(s, c), [c]) == s
    decreases |s|
  {
    var i := IndexOf(s, c);
    if i < |s| {
      SplitJoin(s[i + 1..], c);
      assert s == s[..i] + [c] + s[i + 1..];
    }
  }

  /** The last piece of a split is empty exactly when the text ends with the separator. */
  lemma {:induction false} SplitLast(s: string, c: char)
    requires |s| > 0
    ensures var p := Split(s, c); p[|p| - 1] == [] <==> s[|s| - 1] == c
    decreases |s|
  {
    var i := IndexOf(s, c);
    if i < |s| && i + 1 < |s| {
      SplitLast(s[i + 1..], c);
    }
  }

  /** The first `c` of `a + [c] + b` is the one after `a` when `a` has none. */
  lemma IndexOfAfter(a: string, b: string, c: char)
    requires c !in a
    ensures IndexOf(a + [c] + b, c) == |a|
  {
    var s := a + [c] + b;
    var i := IndexOf(s, c);
    assert s[|a|] == c;
    assert forall k | 0 <= k < |a| :: s[k] == a[k] && a[k] != c;
  }

  /** Splitting a join at a separator none of the pieces contains gives the pieces back. */
  lemma {:induction false} JoinSplit(xs: seq<string>, c: char)
    requires |xs| >= 1
    requires forall k | 0 <= k < |xs| :: c !in xs[k]
    ensures Split(Join(xs, [c]), c) == xs
    decreases |xs|
  {
    if |xs| == 1 {
      assert forall k | 0 <= k < |xs[0]| :: xs[0][k] != c;
    } else {
      var rest := Join(xs[1..], [c]);
      var s := Join(xs, [c]);
      assert s == xs[0] + [c] + rest;
      IndexOfAfter(xs[0], rest, c);
      assert s[..|xs[0]|] == xs[0];
      assert s[|xs[0]| + 1..] == rest;
      JoinSplit(xs[1..], c);
      assert xs == [xs[0]] + xs[1..];
    }
  }

  /** Rust's `str::lines` for text that uses `'\n'` only: the pieces between
      newlines, without the empty piece after a final newline. */
  function Lines(s: string): (r: seq<string>)
    ensures forall k | 0 <= k < |r| :: '\n' !in r[k]
  {
    if s == [] then []
    else
      var parts := Split(s, '\n');
      if parts[|parts| - 1] == [] then parts[..|parts| - 1] else parts
  }

  /** At least one line, none holding a newline, and the last not empty. */
  predicate IsLineList(ys: seq<string>) {
    && |ys| > 0
    && ys[|ys| - 1] != []
    && forall k | 0 <= k < |ys| :: '\n' !in ys[k]
  }

  /** Lines joined with newlines split back into the same lines, provided the
      last one is not empty. */
  lemma LinesOfJoin(ys: seq<string>)
    requires IsLineList(ys)
    ensures Lines(Join(ys, "\n")) == ys
  {
    JoinSplit(ys, '\n');
  }

  /** Re-joining the lines with newlines, plus the final newline if the text
      had one, rebuilds the text: no character is lost or invented. */
  lemma LinesRoundTrip(s: string)
    ensures Join(Lines(s), "\n") + (if s != [] && s[|s| - 1] == '\n' then "\n" else "") == s
  {
    if s != [] {
      var parts := Split(s, '\n');
      SplitJoin(s, '\n');
      SplitLast(s, '\n');
      if parts[|parts| - 1] == [] {
        var init := parts[..|parts| - 1];
        assert parts == init + [[]];
        if |init| >= 1 {
          JoinAppend(init, [], "\n");
        }
      }
    }
  }

  predicate IsDigit(c: char) {
    '0' <= c <= '9'
  }

  function DigitValue(c: char): (d: nat)
    requires IsDigit(c)
    ensures d < 10
  {
    c as int - '0' as int
  }

  function DigitChar(d: nat): (c: char)
    requires d < 10
    ensures IsDigit(c)
  {
    ('0' as int + d) as char
  }

  /** Decimal rendering of a natural number, as `format!("{}", n)` prints it. */
  function Decimal(n: nat): (r: string)
    ensures |r| >= 1
    ensures forall k | 0 <= k < |r| :: IsDigit(r[k])
    decreases n
  {
    if n < 10 then [DigitChar(n)] else Decimal(n / 10) + [DigitChar(n % 10)]
  }

  /** The number a string of decimal digits denotes. */
  function DecimalValue(s: string): nat
    requires forall k | 0 <= k < |s| :: IsDigit(s[k])
    decreases |s|
  {
    if |s| == 0 then 0
    else 10 * DecimalValue(s[..|s| - 1]) + DigitValue(s[|s| - 1])
  }

  /** Reading back a rendered number gives the number. */
  lemma {:induction false} DecimalRoundTrip(n: nat)
    ensures DecimalValue(Decimal(n)) == n
    decreases n
  {
    if n >= 10 {
      DecimalRoundTrip(n / 10);
      var r := Decimal(n);
      assert r[..|r| - 1] == Decimal(n / 10);
    }
  }

  /** The number of bytes UTF-8 uses to encode `c`. */
  function Utf8Len(c: char): (n: nat)
    ensures 1 <= n <= 4
  {
    if c as int < 0x80 then 1
    else if c as int < 0x800 then 2
    else if c as int < 0x1_0000 then 3
    else 4
  }

  /** `s.bytes().len()` */
  function ByteLen(s: string): (n: nat)
    ensures |s| <= n <= 4 * |s|
  {
    if |s| == 0 then 0 else Utf8Len(s[0]) + ByteLen(s[1..])
  }
}
