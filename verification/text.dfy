/** String primitives the JavaScript code relies on (`indexOf`, `startsWith`,
    `endsWith`, `repeat`, `join`, `split`), each given by a definition plus a
    contract in terms of the independent notion of an occurrence `OccursAt`. */
module Text {

  /** `pat` occurs in `s` starting at offset `p`. */
  predicate OccursAt(s: string, pat: string, p: int) {
    0 <= p && p + |pat| <= |s| && s[p..p + |pat|] == pat
  }

  /** `pat` occurs somewhere in `s`. */
  predicate Contains(s: string, pat: string) {
    exists p :: 0 <= p <= |s| - |pat| && OccursAt(s, pat, p)
  }

  /** No occurrence of `pat` starts before offset `n`. */
  predicate NoneBefore(s: string, pat: string, n: int) {
    forall q :: 0 <= q < n ==> !OccursAt(s, pat, q)
  }

  /** A separator whose first character appears nowhere else in it: two of
      its occurrences can never overlap. Both markers and both line
      terminators have this shape. */
  predicate Anchored(m: string) {
    |m| > 0 && forall k :: 1 <= k < |m| ==> m[k] != m[0]
  }

  /** The terminators `os.EOL` can be. */
  predicate LineTerminator(eol: string) {
    eol == "\n" || eol == "\r\n"
  }

  predicate StartsWith(s: string, prefix: string) {
    |prefix| <= |s| && s[..|prefix|] == prefix
  }

  predicate EndsWith(s: string, suffix: string) {
    |suffix| <= |s| && s[|s| - |suffix|..] == suffix
  }

  lemma OccursShift(s: string, pat: string, q: int)
    requires |s| > 0 && q >= 0
    ensures OccursAt(s[1..], pat, q) <==> OccursAt(s, pat, q + 1)
  {
    if 0 <= q && q + 1 + |pat| <= |s| {
      assert s[1..][q..q + |pat|] == s[q + 1..q + 1 + |pat|];
    }
  }

  /** JavaScript `s.indexOf(pat)`: the first offset at which `pat` occurs,
      or -1 when it does not occur. */
  function IndexOf(s: string, pat: string): (r: int)
    ensures r == -1 || 0 <= r <= |s| - |pat|
    ensures r == -1 <==> !Contains(s, pat)
    ensures r >= 0 ==> OccursAt(s, pat, r) && NoneBefore(s, pat, r)
    decreases |s|
  {
    if |s| < |pat| then -1
    else if s[..|pat|] == pat then
      assert OccursAt(s, pat, 0);
      0
    else
      var r := IndexOf(s[1..], pat);
      assert !OccursAt(s, pat, 0);
      assert forall q :: q >= 0 ==> (OccursAt(s[1..], pat, q) <==> OccursAt(s, pat, q + 1)) by {
        forall q | q >= 0 ensures OccursAt(s[1..], pat, q) <==> OccursAt(s, pat, q + 1) {
          OccursShift(s, pat, q);
        }
      }
      if r < 0 then
        assert !Contains(s, pat) by {
          forall p | 0 <= p <= |s| - |pat| ensures !OccursAt(s, pat, p) {
            if p > 0 {
              assert !OccursAt(s[1..], pat, p - 1);
            }
          }
        }
        -1
      else
        assert OccursAt(s, pat, r + 1);
        assert NoneBefore(s, pat, r + 1) by {
          forall q | 1 <= q < r + 1 ensures !OccursAt(s, pat, q) {
            assert !OccursAt(s[1..], pat, q - 1);
          }
        }
        r + 1
  }

  /** An occurrence with none before it is the one `IndexOf` reports. */
  lemma IndexOfIsFirst(s: string, pat: string, q: int)
    requires OccursAt(s, pat, q) && NoneBefore(s, pat, q)
    ensures IndexOf(s, pat) == q
  {
    assert Contains(s, pat);
  }

  /** An occurrence that ends inside the left operand of a concatenation is
      an occurrence in that operand. */
  lemma OccursInLeft(a: string, b: string, m: string, p: int)
    requires 0 <= p && p + |m| <= |a|
    ensures OccursAt(a + b, m, p) <==> OccursAt(a, m, p)
  {
    assert (a + b)[p..p + |m|] == a[p..p + |m|];
  }

  /** Occurrences in the right operand are occurrences in the concatenation. */
  lemma OccursInRight(a: string, b: string, m: string, q: int)
    requires q >= 0
    ensures OccursAt(a + b, m, |a| + q) <==> OccursAt(b, m, q)
  {
    if q + |m| <= |b| {
      assert (a + b)[|a| + q..|a| + q + |m|] == b[q..q + |m|];
    }
  }

  /** An occurrence fixes every character it covers. */
  lemma OccursAtChar(s: string, m: string, p: int, x: int)
    requires 0 <= p <= x < p + |m| && x < |s|
    ensures OccursAt(s, m, p) ==> s[x] == m[x - p]
  {
    if OccursAt(s, m, p) {
      assert s[p..p + |m|][x - p] == s[x];
    }
  }

  /** An anchored pattern cannot start inside `a` and run into a `b` that
      begins with the pattern's own first character. */
  lemma NoStraddle(a: string, b: string, m: string, p: int)
    requires Anchored(m)
    requires |b| > 0 && b[0] == m[0]
    requires 0 <= p < |a| < p + |m|
    ensures !OccursAt(a + b, m, p)
  {
    OccursAtChar(a + b, m, p, |a|);
    assert (a + b)[|a|] == b[0];
  }

  lemma LineTerminatorAnchored(eol: string)
    requires LineTerminator(eol)
    ensures Anchored(eol)
  {
  }

  /** Gluing two terminator-free texts stays terminator-free unless the glue
      point itself spells "\r\n". */
  lemma ConcatWithoutTerminator(a: string, b: string, eol: string)
    requires LineTerminator(eol)
    requires !Contains(a, eol) && !Contains(b, eol)
    requires |a| == 0 || |b| == 0 || a[|a| - 1] != '\r' || b[0] != '\n'
    ensures !Contains(a + b, eol)
  {
    forall p | 0 <= p <= |a + b| - |eol| ensures !OccursAt(a + b, eol, p) {
      if p + |eol| <= |a| {
        OccursInLeft(a, b, eol, p);
      } else if p >= |a| {
        OccursInRight(a, b, eol, p - |a|);
      } else {
        OccursAtChar(a + b, eol, p, |a|);
        OccursAtChar(a + b, eol, p, p);
        assert (a + b)[|a|] == b[0];
        assert (a + b)[p] == a[|a| - 1];
      }
    }
  }

  /** Text without "\n" holds no line terminator. */
  lemma NoNewlineNoTerminator(s: string, eol: string)
    requires LineTerminator(eol)
    requires forall k :: 0 <= k < |s| ==> s[k] != '\n'
    ensures !Contains(s, eol)
  {
    forall p | 0 <= p <= |s| - |eol| ensures !OccursAt(s, eol, p) {
      OccursAtChar(s, eol, p, p + |eol| - 1);
    }
  }

  /** `s.repeat(n)`. */
  function Repeat(s: string, n: nat): (r: string)
    ensures |r| == n * |s|
  {
    if n == 0 then "" else s + Repeat(s, n - 1)
  }

  /** `parts.join(sep)`. */
  function Join(parts: seq<string>, sep: string): string
  {
    if |parts| == 0 then ""
    else if |parts| == 1 then parts[0]
    else parts[0] + sep + Join(parts[1..], sep)
  }

  /** The one-character strings of `s`, which is what `split("")` yields. */
  function Chars(s: string): (cs: seq<string>)
    ensures |cs| == |s|
    ensures forall k :: 0 <= k < |s| ==> cs[k] == [s[k]]
  {
    seq(|s|, k requires 0 <= k < |s| => [s[k]])
  }

  /** `s.split(sep)` for a string separator. */
  function Split(s: string, sep: string): (parts: seq<string>)
    ensures |sep| > 0 ==> |parts| > 0
    ensures |sep| > 0 ==> forall k :: 0 <= k < |parts| ==> !Contains(parts[k], sep)
    decreases |s|
  {
    if |sep| == 0 then Chars(s)
    else
      var i := IndexOf(s, sep);
      if i < 0 then [s]
      else
        var head := s[..i];
        assert !Contains(head, sep) by {
          forall p | 0 <= p <= |head| - |sep| ensures !OccursAt(head, sep, p) {
            assert s == head + s[i..];
            OccursInLeft(head, s[i..], sep, p);
          }
        }
        [head] + Split(s[i + |sep|..], sep)
  }

  lemma JoinChars(s: string)
    ensures Join(Chars(s), "") == s
    decreases |s|
  {
    if |s| > 1 {
      assert Chars(s)[1..] == Chars(s[1..]);
      JoinChars(s[1..]);
      assert s == [s[0]] + s[1..];
    }
  }

  /** Joining the pieces with the separator gives back the split text. */
  lemma {:induction false} JoinSplit(s: string, sep: string)
    ensures Join(Split(s, sep), sep) == s
    decreases |s|
  {
    if |sep| == 0 {
      JoinChars(s);
    } else {
      var i := IndexOf(s, sep);
      if i < 0 {
        assert Split(s, sep) == [s];
      } else {
        var rest := s[i + |sep|..];
        JoinSplit(rest, sep);
        var tail := Split(rest, sep);
        assert |tail| > 0;
        assert Split(s, sep) == [s[..i]] + tail;
        assert ([s[..i]] + tail)[1..] == tail;
        assert Join([s[..i]] + tail, sep) == s[..i] + sep + Join(tail, sep);
        assert OccursAt(s, sep, i);
        assert s == s[..i] + s[i..i + |sep|] + rest;
      }
    }
  }

  /** Splitting a join of separator-free pieces gives the pieces back. */
  lemma {:induction false} SplitJoin(parts: seq<string>, sep: string)
    requires Anchored(sep)
    requires |parts| > 0
    requires forall k :: 0 <= k < |parts| ==> !Contains(parts[k], sep)
    ensures Split(Join(parts, sep), sep) == parts
  {
    if |parts| == 1 {
      assert !Contains(parts[0], sep);
    } else {
      var head := parts[0];
      var tail := Join(parts[1..], sep);
      var s := head + sep + tail;
      assert Join(parts, sep) == s;
      assert OccursAt(s, sep, |head|) by {
        assert s[|head|..|head| + |sep|] == sep;
      }
      assert NoneBefore(s, sep, |head|) by {
        forall q | 0 <= q < |head| ensures !OccursAt(s, sep, q) {
          assert s == head + (sep + tail);
          if q + |sep| <= |head| {
            OccursInLeft(head, sep + tail, sep, q);
          } else {
            NoStraddle(head, sep + tail, sep, q);
          }
        }
      }
      IndexOfIsFirst(s, sep, |head|);
      assert s[|head| + |sep|..] == tail;
      SplitJoin(parts[1..], sep);
      assert s[..|head|] == head;
      assert Split(s, sep) == [head] + Split(tail, sep);
    }
  }
}
