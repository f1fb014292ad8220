/** Whitespace handling as Python's `str` does it: `strip()`, `split()` with no
    argument and `sep.join(parts)`. Strings are sequences of code points. */
module Text {

  /** Python's `str.isspace()` for one code point: the ASCII controls 9-13 and
      28-31, the space, U+0085, U+00A0, U+1680, U+2000-U+200A, U+2028, U+2029,
      U+202F, U+205F and U+3000. Both `strip()` and `split()` use this set.
      ASCII letters and digits are not whitespace, nor are the zero-width
      space U+200B and the byte order mark U+FEFF; nothing above U+3000 is. */
  predicate IsSpace(c: char): (b: bool)
    ensures c == ' ' || c == '\t' || c == '\n' || c == '\r' ==> b
    ensures ('0' <= c <= '9') || ('a' <= c <= 'z') || ('A' <= c <= 'Z') ==> !b
    ensures c as int == 0x200B || c as int == 0xFEFF ==> !b
    ensures b ==> c as int <= 0x3000
  {
    var n := c as int;
    (9 <= n <= 13) || (28 <= n <= 32) || n == 0x85 || n == 0xA0 || n == 0x1680
    || (0x2000 <= n <= 0x200A) || n == 0x2028 || n == 0x2029 || n == 0x202F
    || n == 0x205F || n == 0x3000
  }

  predicate AllSpace(s: string) {
    forall k :: 0 <= k < |s| ==> IsSpace(s[k])
  }

  predicate NoSpace(s: string) {
    forall k :: 0 <= k < |s| ==> !IsSpace(s[k])
  }

  /** The first index at or after `i` that does not hold whitespace (or `|s|`). */
  function SkipSpace(s: string, i: nat): (j: nat)
    requires i <= |s|
    ensures i <= j <= |s|
    ensures forall k :: i <= k < j ==> IsSpace(s[k])
    ensures j == |s| || !IsSpace(s[j])
    decreases |s| - i
  {
    if i < |s| && IsSpace(s[i]) then SkipSpace(s, i + 1) else i
  }

  /** The least index at or before `j` from which `s[..j]` is all whitespace. */
  function SkipSpaceBack(s: string, j: nat): (i: nat)
    requires j <= |s|
    ensures i <= j
    ensures forall k :: i <= k < j ==> IsSpace(s[k])
    ensures i == 0 || !IsSpace(s[i - 1])
  {
    if 0 < j && IsSpace(s[j - 1]) then SkipSpaceBack(s, j - 1) else j
  }

  /** `s.strip()`: `s` without its leading and its trailing whitespace. The
      result neither starts nor ends with whitespace, and it is empty exactly
      when `s` is all whitespace. */
  function Strip(s: string): (r: string)
    ensures r != [] ==> !IsSpace(r[0]) && !IsSpace(r[|r| - 1])
    ensures r == [] <==> AllSpace(s)
  {
    var a := SkipSpace(s, 0);
    var b := SkipSpaceBack(s, |s|);
    if a < b then s[a..b] else []
  }

  /** The token being read, if any, as a list of tokens. */
  function Flush(cur: string): seq<string> {
    if cur == [] then [] else [cur]
  }

  /** The tokens of `s` when the characters in `cur` have already been read
      as the start of a token: a character that is not whitespace extends the
      token, whitespace ends it. */
  function SplitWith(s: string, cur: string): seq<string>
    decreases |s|
  {
    if s == [] then Flush(cur)
    else if IsSpace(s[0]) then Flush(cur) + SplitWith(s[1..], [])
    else SplitWith(s[1..], cur + [s[0]])
  }

  lemma {:induction false} SplitWithTokens(s: string, cur: string)
    requires NoSpace(cur)
    ensures forall k :: 0 <= k < |SplitWith(s, cur)| ==>
      SplitWith(s, cur)[k] != [] && NoSpace(SplitWith(s, cur)[k])
    ensures SplitWith(s, cur) == [] <==> cur == [] && AllSpace(s)
    decreases |s|
  {
    if s != [] {
      if IsSpace(s[0]) {
        SplitWithTokens(s[1..], []);
      } else {
        assert NoSpace(cur + [s[0]]) by {
          forall k | 0 <= k < |cur| + 1 ensures !IsSpace((cur + [s[0]])[k]) {
            if k < |cur| { assert (cur + [s[0]])[k] == cur[k]; }
          }
        }
        SplitWithTokens(s[1..], cur + [s[0]]);
      }
    }
  }

  /** `s.split()`: the maximal runs of non-whitespace of `s`, in order. */
  function Split(s: string): (r: seq<string>)
    ensures forall k :: 0 <= k < |r| ==> r[k] != [] && NoSpace(r[k])
    ensures r == [] <==> AllSpace(s)
  {
    SplitWithTokens(s, []);
    SplitWith(s, [])
  }

  /** `sep.join(parts)`. */
  function Join(parts: seq<string>, sep: string): (r: string)
    ensures sep != [] ==> (r == [] <==> parts == [] || (|parts| == 1 && parts[0] == []))
  {
    if |parts| == 0 then []
    else if |parts| == 1 then parts[0]
    else parts[0] + sep + Join(parts[1..], sep)
  }

  /** The characters of `s` that are not whitespace, in order. */
  function NonSpaceChars(s: string): (r: string)
    ensures NoSpace(r) && |r| <= |s|
  {
    if s == [] then []
    else (if IsSpace(s[0]) then [] else [s[0]]) + NonSpaceChars(s[1..])
  }

  /** The concatenation of `ss`. */
  function Concat(ss: seq<string>): string {
    if ss == [] then [] else ss[0] + Concat(ss[1..])
  }

  /** `s` is whitespace, then `Strip(s)`, then whitespace: stripping removes
      the surrounding whitespace and nothing else. */
  lemma StripDecomposes(s: string)
    ensures var a := SkipSpace(s, 0); var r := Strip(s);
      a + |r| <= |s| && s[a..a + |r|] == r && AllSpace(s[..a]) && AllSpace(s[a + |r|..])
  {
    var a := SkipSpace(s, 0);
    var r := Strip(s);
    assert AllSpace(s[..a]) by {
      forall k | 0 <= k < a ensures IsSpace(s[..a][k]) { assert s[..a][k] == s[k]; }
    }
    if r == [] {
      assert a == |s|;
    } else {
      var b := SkipSpaceBack(s, |s|);
      assert a + |r| == b;
      forall k | 0 <= k < |s| - b ensures IsSpace(s[b..][k]) { assert s[b..][k] == s[b + k]; }
    }
  }

  /** A string that neither starts nor ends with whitespace is its own
      `strip()`, whatever it holds in between. */
  lemma StripTrimmed(s: string)
    requires s != [] && !IsSpace(s[0]) && !IsSpace(s[|s| - 1])
    ensures Strip(s) == s
  {
    assert SkipSpace(s, 0) == 0;
    assert SkipSpaceBack(s, |s|) == |s|;
    assert s[0..|s|] == s;
  }

  lemma StripIdempotent(s: string)
    ensures Strip(Strip(s)) == Strip(s)
  {
    if Strip(s) != [] {
      StripTrimmed(Strip(s));
    }
  }

  lemma StripNoSpace(s: string)
    requires NoSpace(s)
    ensures Strip(s) == s
  {
    if s != [] {
      StripTrimmed(s);
    }
  }

  /** A whitespace-free word extends the token being read. */
  lemma {:induction false} SplitWithWord(w: string, s: string, cur: string)
    requires NoSpace(w)
    ensures SplitWith(w + s, cur) == SplitWith(s, cur + w)
    decreases |w|
  {
    if w == [] {
      assert w + s == s;
      assert cur + w == cur;
    } else {
      var t := w + s;
      assert t[0] == w[0];
      assert t[1..] == w[1..] + s;
      SplitWithWord(w[1..], s, cur + [w[0]]);
      assert cur + [w[0]] + w[1..] == cur + w;
    }
  }

  /** Splitting the space-join of whitespace-free, non-empty tokens gives the
      tokens back. */
  lemma {:induction false} SplitJoin(ts: seq<string>)
    requires forall k :: 0 <= k < |ts| ==> ts[k] != [] && NoSpace(ts[k])
    ensures Split(Join(ts, " ")) == ts
    decreases |ts|
  {
    if |ts| == 1 {
      SplitWithWord(ts[0], [], []);
      assert ts[0] + [] == ts[0];
      assert [] + ts[0] == ts[0];
    } else if |ts| > 1 {
      var rest := Join(ts[1..], " ");
      assert Join(ts, " ") == ts[0] + (" " + rest);
      SplitWithWord(ts[0], " " + rest, []);
      assert [] + ts[0] == ts[0];
      assert (" " + rest)[1..] == rest;
      assert SplitWith(" " + rest, ts[0]) == [ts[0]] + SplitWith(rest, []);
      assert forall k :: 0 <= k < |ts[1..]| ==> ts[1..][k] == ts[k + 1];
      SplitJoin(ts[1..]);
      assert [ts[0]] + ts[1..] == ts;
    }
  }

  /** A whitespace character ends the token being read: the tokens of
      `a + [c] + b` are those of `a` followed by those of `b`. */
  lemma {:induction false} SplitWithAtSpace(a: string, c: char, b: string, cur: string)
    requires IsSpace(c)
    ensures SplitWith(a + [c] + b, cur) == SplitWith(a, cur) + SplitWith(b, [])
    decreases |a|
  {
    if a == [] {
      assert a + [c] + b == [c] + b;
      assert ([c] + b)[1..] == b;
    } else {
      var t := a + [c] + b;
      assert t[0] == a[0];
      assert t[1..] == a[1..] + [c] + b;
      if IsSpace(a[0]) {
        SplitWithAtSpace(a[1..], c, b, []);
      } else {
        SplitWithAtSpace(a[1..], c, b, cur + [a[0]]);
      }
    }
  }

  /** Every whitespace character separates tokens, so `split()` breaks the
      text exactly at its whitespace: whatever whitespace surrounds `c`, the
      tokens on its left are followed by the tokens on its right. */
  lemma SplitAtSpace(a: string, c: char, b: string)
    requires IsSpace(c)
    ensures Split(a + [c] + b) == Split(a) + Split(b)
  {
    SplitWithAtSpace(a, c, b, []);
  }

  /** A non-empty run without whitespace is one token. */
  lemma SplitWord(w: string)
    requires w != [] && NoSpace(w)
    ensures Split(w) == [w]
  {
    SplitWithWord(w, [], []);
    assert w + [] == w;
    assert [] + w == w;
  }

  lemma {:induction false} ConcatAppend(a: seq<string>, b: seq<string>)
    ensures Concat(a + b) == Concat(a) + Concat(b)
    decreases |a|
  {
    if a == [] {
      assert a + b == b;
    } else {
      assert (a + b)[1..] == a[1..] + b;
      ConcatAppend(a[1..], b);
    }
  }

  lemma ConcatFlush(cur: string)
    ensures Concat(Flush(cur)) == cur
  {
    if cur != [] {
      assert [cur][1..] == [];
    }
  }

  /** The tokens still to come, put together, are the characters already
      read followed by the non-whitespace characters of the rest. */
  lemma {:induction false} SplitWithKeepsNonSpace(s: string, cur: string)
    ensures Concat(SplitWith(s, cur)) == cur + NonSpaceChars(s)
    decreases |s|
  {
    ConcatFlush(cur);
    if s == [] {
      assert cur + [] == cur;
    } else if IsSpace(s[0]) {
      SplitWithKeepsNonSpace(s[1..], []);
      ConcatAppend(Flush(cur), SplitWith(s[1..], []));
      assert [] + NonSpaceChars(s[1..]) == NonSpaceChars(s[1..]);
      assert NonSpaceChars(s) == NonSpaceChars(s[1..]);
    } else {
      SplitWithKeepsNonSpace(s[1..], cur + [s[0]]);
      assert NonSpaceChars(s) == [s[0]] + NonSpaceChars(s[1..]);
      assert cur + [s[0]] + NonSpaceChars(s[1..]) == cur + ([s[0]] + NonSpaceChars(s[1..]));
    }
  }

  /** The tokens of `s.split()`, put back together, are exactly the
      non-whitespace characters of `s`: splitting drops whitespace and nothing
      else. */
  lemma SplitKeepsNonSpace(s: string)
    ensures Concat(Split(s)) == NonSpaceChars(s)
  {
    SplitWithKeepsNonSpace(s, []);
    assert [] + NonSpaceChars(s) == NonSpaceChars(s);
  }
}
