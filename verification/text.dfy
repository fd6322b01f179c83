/**
  The handful of Python `str` operations the program relies on: `isspace`,
  `strip()`, `split()` with no argument, and `replace(c, "")`.
 */
module Text {
  import opened Seqs

  /**
    Python's `str.isspace()` for one code point: the ASCII controls TAB to CR
    and FS to US, the space, NEL, NO-BREAK SPACE, and the Unicode space
    separators and line and paragraph separators.
   */
  predicate IsSpace(c: char) {
    var n := c as int;
    || 0x09 <= n <= 0x0D || 0x1C <= n <= 0x20 || n == 0x85 || n == 0xA0 || n == 0x1680
    || 0x2000 <= n <= 0x200A || n == 0x2028 || n == 0x2029 || n == 0x202F || n == 0x205F
    || n == 0x3000
  }

  predicate AllSpace(s: string) {
    forall i :: 0 <= i < |s| ==> IsSpace(s[i])
  }

  predicate NoSpace(s: string) {
    forall i :: 0 <= i < |s| ==> !IsSpace(s[i])
  }

  /** The first position at or after `i` that does not hold whitespace (or the end). */
  function SkipForward(s: string, i: nat): (j: nat)
    requires i <= |s|
    ensures i <= j <= |s|
    ensures forall k :: i <= k < j ==> IsSpace(s[k])
    ensures j < |s| ==> !IsSpace(s[j])
    decreases |s| - i
  {
    if i == |s| || !IsSpace(s[i]) then i else SkipForward(s, i + 1)
  }

  /** The end of the text before the whitespace run that ends at `j`. */
  function SkipBackward(s: string, j: nat): (i: nat)
    requires j <= |s|
    ensures i <= j
    ensures forall k :: i <= k < j ==> IsSpace(s[k])
    ensures 0 < i ==> !IsSpace(s[i - 1])
  {
    if j == 0 || !IsSpace(s[j - 1]) then j else SkipBackward(s, j - 1)
  }

  /** Number of whitespace characters at the front of `s`. */
  function LeadingSpaces(s: string): (n: nat)
    ensures n <= |s|
    ensures forall k :: 0 <= k < n ==> IsSpace(s[k])
    ensures n < |s| ==> !IsSpace(s[n])
  {
    SkipForward(s, 0)
  }

  /**
    `s.strip()`: `s` without its leading and trailing whitespace. The result is
    the run of `s` that starts after the leading whitespace and is followed only
    by whitespace.
   */
  function Strip(s: string): (r: string)
    ensures r == "" <==> AllSpace(s)
    ensures r != "" ==> !IsSpace(r[0]) && !IsSpace(r[|r| - 1])
  {
    var i := LeadingSpaces(s);
    if i == |s| then "" else s[i..SkipBackward(s, |s|)]
  }

  /**
    Where the stripped text sits in `s`: right after the leading whitespace,
    and followed only by whitespace.
   */
  lemma StripPosition(s: string)
    ensures LeadingSpaces(s) + |Strip(s)| <= |s|
    ensures forall k :: 0 <= k < |Strip(s)| ==> Strip(s)[k] == s[LeadingSpaces(s) + k]
    ensures forall k :: LeadingSpaces(s) + |Strip(s)| <= k < |s| ==> IsSpace(s[k])
  {
    var i := LeadingSpaces(s);
    if i < |s| {
      var j := SkipBackward(s, |s|);
      assert i < j;
      assert Strip(s) == s[i..j];
    }
  }

  /** A string without surrounding whitespace is its own strip. */
  lemma StripTrimmed(s: string)
    requires s != "" && !IsSpace(s[0]) && !IsSpace(s[|s| - 1])
    ensures Strip(s) == s
  {
    assert LeadingSpaces(s) == 0;
    assert SkipBackward(s, |s|) == |s|;
    assert s[0..|s|] == s;
  }

  /** The longest whitespace-free prefix of `s`. */
  function Word(s: string): (w: string)
    ensures w <= s
    ensures NoSpace(w)
    ensures |w| < |s| ==> IsSpace(s[|w|])
  {
    if |s| == 0 || IsSpace(s[0]) then ""
    else [s[0]] + Word(s[1..])
  }

  /** `s.split()`: the maximal whitespace-free runs of `s`, in order. */
  function Tokens(s: string): (ts: seq<string>)
    ensures forall i :: 0 <= i < |ts| ==> ts[i] != "" && NoSpace(ts[i])
    ensures |ts| == 0 <==> AllSpace(s)
    decreases |s|
  {
    if |s| == 0 then []
    else if IsSpace(s[0]) then
      var ts := Tokens(s[1..]);
      assert AllSpace(s[1..]) ==> AllSpace(s) by {
        if AllSpace(s[1..]) {
          forall i | 0 <= i < |s| ensures IsSpace(s[i]) {
            if i > 0 { assert s[i] == s[1..][i - 1]; }
          }
        }
      }
      ts
    else
      var w := Word(s);
      [w] + Tokens(s[|w|..])
  }

  /** `s` with its whitespace removed. */
  function RemoveSpaces(s: string): (r: string)
    ensures NoSpace(r)
    ensures |r| <= |s|
  {
    if |s| == 0 then ""
    else if IsSpace(s[0]) then RemoveSpaces(s[1..])
    else [s[0]] + RemoveSpaces(s[1..])
  }

  /** Concatenation of a list of strings (`"".join(xs)`). */
  function Concat(xs: seq<string>): string {
    if |xs| == 0 then "" else xs[0] + Concat(xs[1..])
  }

  lemma {:induction false} RemoveSpacesAppend(a: string, b: string)
    ensures RemoveSpaces(a + b) == RemoveSpaces(a) + RemoveSpaces(b)
    decreases |a|
  {
    if |a| > 0 {
      assert (a + b)[1..] == a[1..] + b;
      RemoveSpacesAppend(a[1..], b);
    } else {
      assert a + b == b;
    }
  }

  lemma {:induction false} RemoveSpacesOfWord(w: string)
    requires NoSpace(w)
    ensures RemoveSpaces(w) == w
    decreases |w|
  {
    if |w| > 0 {
      RemoveSpacesOfWord(w[1..]);
    }
  }

  /**
    Splitting loses exactly the whitespace: joining the tokens back without a
    separator gives the input with its whitespace removed.
   */
  lemma {:induction false} TokensJoin(s: string)
    ensures Concat(Tokens(s)) == RemoveSpaces(s)
    decreases |s|
  {
    if |s| == 0 {
    } else if IsSpace(s[0]) {
      TokensJoin(s[1..]);
    } else {
      var w := Word(s);
      var rest := s[|w|..];
      assert s == w + rest;
      TokensJoin(rest);
      RemoveSpacesAppend(w, rest);
      RemoveSpacesOfWord(w);
      assert ([w] + Tokens(rest))[1..] == Tokens(rest);
    }
  }

  /** A non-empty whitespace-free string splits into itself alone. */
  lemma {:induction false} TokensOfWord(s: string)
    requires s != "" && NoSpace(s)
    ensures Tokens(s) == [s]
  {
    TokensSplit("", s, "");
    assert "" + s + "" == s;
  }

  /**
    `split()` token by token: after any whitespace, the first token is the
    whole whitespace-free run that follows, up to the next whitespace or the
    end, and the remaining tokens are those of the rest.
   */
  lemma {:induction false} TokensSplit(sp: string, w: string, rest: string)
    requires AllSpace(sp)
    requires w != "" && NoSpace(w)
    requires rest == "" || IsSpace(rest[0])
    ensures Tokens(sp + w + rest) == [w] + Tokens(rest)
    decreases |sp|
  {
    var s := sp + w + rest;
    if |sp| == 0 {
      assert s == w + rest;
      WordPrefix(w, rest);
      assert s[|w|..] == rest;
    } else {
      assert s[1..] == sp[1..] + w + rest;
      TokensSplit(sp[1..], w, rest);
    }
  }

  /** The longest whitespace-free prefix of a word followed by whitespace (or nothing) is that word. */
  lemma {:induction false} WordPrefix(w: string, rest: string)
    requires NoSpace(w)
    requires rest == "" || IsSpace(rest[0])
    ensures Word(w + rest) == w
    decreases |w|
  {
    if |w| == 0 {
      assert w + rest == rest;
    } else {
      assert (w + rest)[1..] == w[1..] + rest;
      WordPrefix(w[1..], rest);
    }
  }

  /** `s.replace([c], "")`: every occurrence of `c` deleted. */
  function RemoveChar(s: string, c: char): (r: string)
    ensures c !in r
    ensures c !in s ==> r == s
  {
    if |s| == 0 then ""
    else
      var rest := RemoveChar(s[1..], c);
      assert s == [s[0]] + s[1..];
      if s[0] == c then rest else [s[0]] + rest
  }

  /** Every other character is kept as often as it occurs. */
  lemma {:induction false} RemoveCharKeeps(s: string, c: char)
    ensures forall d :: d != c ==> multiset(RemoveChar(s, c))[d] == multiset(s)[d]
    decreases |s|
  {
    if |s| > 0 {
      RemoveCharKeeps(s[1..], c);
      assert s == [s[0]] + s[1..];
    }
  }

  /** Deleting a character works piece by piece, so the characters kept stay in their order. */
  lemma {:induction false} RemoveCharAppend(a: string, b: string, c: char)
    ensures RemoveChar(a + b, c) == RemoveChar(a, c) + RemoveChar(b, c)
    decreases |a|
  {
    if |a| == 0 {
      AppendEmpty(a, b);
      AppendEmpty(RemoveChar(a, c), RemoveChar(b, c));
    } else {
      RemoveCharAppend(a[1..], b, c);
      RemoveCharAppendStep(a, b, c);
    }
  }

  /** The inductive step: the first character of `a` is handled alike on both sides. */
  lemma RemoveCharAppendStep(a: string, b: string, c: char)
    requires |a| > 0
    requires RemoveChar(a[1..] + b, c) == RemoveChar(a[1..], c) + RemoveChar(b, c)
    ensures RemoveChar(a + b, c) == RemoveChar(a, c) + RemoveChar(b, c)
  {
    var x := if a[0] == c then "" else [a[0]];
    AppendRest(a, b);
    RemoveCharFirst(a + b, c);
    RemoveCharFirst(a, c);
    AppendAssoc(x, RemoveChar(a[1..], c), RemoveChar(b, c));
  }

  /** The first character is kept exactly when it is not `c`. */
  lemma RemoveCharFirst(s: string, c: char)
    requires |s| > 0
    ensures RemoveChar(s, c) == (if s[0] == c then "" else [s[0]]) + RemoveChar(s[1..], c)
  {
  }

  /** A single character is kept exactly when it is not `c`. */
  lemma RemoveCharOne(x: char, c: char)
    ensures RemoveChar([x], c) == if x == c then "" else [x]
  {
    RemoveCharFirst([x], c);
    assert [x][1..] == "";
  }
}
