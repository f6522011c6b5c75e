/**
 * The handful of Python string and `os.path` operations the catalog builder
 * relies on, written out with the semantics of Python 2.7 on strings of
 * characters: `str.startswith`, the substring test `sub in s`, `s.split('/')`,
 * `'/'.join(parts)`, `str.rfind`, `posixpath.basename`, the root half of
 * `posixpath.splitext`, the negative slice `x[-4:]`, and the digit filter
 * `''.join(map(lambda c: '' if c in '0123456789' else c, s))`.
 * One `char` is one character: how a narrow Python 2 build counts code
 * units of non-ASCII text in `x[-4:]` or `rfind` is not modelled.
 */
module Text {

  const SLASH := '/'
  const DOT := '.'

  /** `s.startswith(prefix)`: `s` is `prefix` followed by the rest of `s`. */
  predicate StartsWith(s: string, prefix: string)
    ensures StartsWith(s, prefix) <==> |prefix| <= |s| && s == prefix + s[|prefix|..]
  {
    |prefix| <= |s| && s[..|prefix|] == prefix
  }

  /** `sub in s`: `sub` occurs in `s` as a contiguous block. */
  predicate Contains(s: string, sub: string)
    ensures Contains(s, sub) ==> |sub| <= |s|
    decreases |s|
  {
    StartsWith(s, sub) || (|s| > 0 && Contains(s[1..], sub))
  }

  /** An occurrence of `sub` at any position of `s` is found by `Contains`. */
  lemma {:induction false} ContainsAt(s: string, sub: string, i: nat)
    requires i + |sub| <= |s| && s[i..i + |sub|] == sub
    ensures Contains(s, sub)
    decreases i
  {
    if i == 0 {
      assert s[..|sub|] == sub;
    } else {
      assert s[1..][i - 1..i - 1 + |sub|] == s[i..i + |sub|];
      ContainsAt(s[1..], sub, i - 1);
    }
  }

  /** Conversely, `Contains` only holds when `sub` occurs at some position. */
  lemma {:induction false} ContainsWitness(s: string, sub: string) returns (i: nat)
    requires Contains(s, sub)
    ensures i + |sub| <= |s| && s[i..i + |sub|] == sub
    decreases |s|
  {
    if StartsWith(s, sub) {
      i := 0;
    } else {
      var j := ContainsWitness(s[1..], sub);
      assert s[1..][j..j + |sub|] == s[j + 1..j + 1 + |sub|];
      i := j + 1;
    }
  }

  /** A string contains its own prefixes. */
  lemma ContainsPrefix(a: string, b: string)
    ensures Contains(a + b, a)
  {
    assert (a + b)[..|a|] == a;
  }

  /** Every character of `sub` occurs in any `s` that contains `sub`. */
  lemma {:induction false} ContainsChar(s: string, sub: string, k: nat)
    requires k < |sub| && Contains(s, sub)
    ensures sub[k] in s
    decreases |s|
  {
    if StartsWith(s, sub) {
      assert s[k] == sub[k];
    } else {
      ContainsChar(s[1..], sub, k);
    }
  }

  /** A string lacking some character of `sub` does not contain `sub`. */
  lemma NotContains(s: string, sub: string, k: nat)
    requires k < |sub| && sub[k] !in s
    ensures !Contains(s, sub)
  {
    if Contains(s, sub) {
      ContainsChar(s, sub, k);
    }
  }

  // ---------------------------------------------------------------------
  // s.split('/') and '/'.join(parts)

  /** `s.split('/')`: the maximal '/'-free pieces of `s`, in order; never empty. */
  function Split(s: string): (parts: seq<string>)
    ensures |parts| >= 1
    ensures forall i :: 0 <= i < |parts| ==> SLASH !in parts[i]
  {
    if s == [] then [""]
    else
      var rest := Split(s[1..]);
      if s[0] == SLASH then [""] + rest
      else [[s[0]] + rest[0]] + rest[1..]
  }

  /** `'/'.join(parts)`: the first part, then one separator before each further part. */
  function Join(parts: seq<string>): (joined: string)
    ensures parts != [] ==> |parts[0]| + |parts| - 1 <= |joined|
  {
    if parts == [] then ""
    else if |parts| == 1 then parts[0]
    else parts[0] + [SLASH] + Join(parts[1..])
  }

  /** Joining '/'-free parts puts exactly one separator between neighbours. */
  lemma {:induction false} JoinSeparators(parts: seq<string>)
    requires parts != []
    requires forall i :: 0 <= i < |parts| ==> SLASH !in parts[i]
    ensures multiset(Join(parts))[SLASH] == |parts| - 1
  {
    if |parts| > 1 {
      JoinSeparators(parts[1..]);
    }
  }

  lemma JoinPair(a: string, b: string)
    ensures Join([a, b]) == a + "/" + b
  {
    assert [a, b][1..] == [b];
    assert Join([b]) == b;
  }

  /** Joining the pieces of a split gives back the string. */
  lemma {:induction false} JoinSplit(s: string)
    ensures Join(Split(s)) == s
  {
    if s != [] {
      var rest := Split(s[1..]);
      JoinSplit(s[1..]);
      if s[0] == SLASH {
        assert ([""] + rest)[1..] == rest;
      } else if |rest| > 1 {
        assert ([[s[0]] + rest[0]] + rest[1..])[1..] == rest[1..];
      }
    }
  }

  /** A string without '/' splits into itself alone. */
  lemma {:induction false} SplitNoSlash(s: string)
    requires SLASH !in s
    ensures Split(s) == [s]
  {
    if s != [] {
      assert forall i :: 0 <= i < |s| - 1 ==> s[1..][i] == s[i + 1];
      SplitNoSlash(s[1..]);
      assert [s[0]] + s[1..] == s;
    }
  }

  /** Splitting at a '/' splits the two sides independently. */
  lemma {:induction false} SplitAppend(a: string, b: string)
    ensures Split(a + [SLASH] + b) == Split(a) + Split(b)
  {
    var s := a + [SLASH] + b;
    if a == [] {
      assert s[1..] == b;
    } else {
      assert s[1..] == a[1..] + [SLASH] + b;
      SplitAppend(a[1..], b);
    }
  }

  /** Splitting a join of '/'-free pieces gives back the pieces. */
  lemma {:induction false} SplitJoin(parts: seq<string>)
    requires |parts| >= 1
    requires forall i :: 0 <= i < |parts| ==> SLASH !in parts[i]
    ensures Split(Join(parts)) == parts
  {
    if |parts| == 1 {
      SplitNoSlash(parts[0]);
    } else {
      SplitJoin(parts[1..]);
      SplitAppend(parts[0], Join(parts[1..]));
      SplitNoSlash(parts[0]);
    }
  }

  /** The last piece of a join follows the join of the others and a '/'. */
  lemma {:induction false} JoinLast(parts: seq<string>)
    requires |parts| >= 2
    ensures Join(parts) == Join(parts[..|parts| - 1]) + [SLASH] + parts[|parts| - 1]
  {
    if |parts| > 2 {
      JoinLast(parts[1..]);
      assert parts[1..][..|parts| - 2] == parts[..|parts| - 1][1..];
    }
  }

  // ---------------------------------------------------------------------
  // str.rfind and os.path.basename

  /** `s.rfind(c)`: the index of the last `c` in `s`, or -1. */
  function RFind(s: string, c: char): (r: int)
    ensures -1 <= r < |s|
    ensures r >= 0 ==> s[r] == c
    ensures forall j :: r < j < |s| ==> s[j] != c
  {
    if s == [] then -1
    else if s[|s| - 1] == c then |s| - 1
    else RFind(s[..|s| - 1], c)
  }

  /** `posixpath.basename(p)`: the longest '/'-free tail of `p`. */
  function Basename(p: string): (name: string)
    ensures SLASH !in name
    ensures |name| <= |p| && p[|p| - |name|..] == name
    ensures |name| < |p| ==> p[|p| - |name| - 1] == SLASH
  {
    p[RFind(p, SLASH) + 1..]
  }

  /** Only the basename is a '/'-free tail of `p` that starts `p` or follows a '/'. */
  lemma BasenameUnique(p: string, tail: string)
    requires SLASH !in tail
    requires |tail| <= |p| && p[|p| - |tail|..] == tail
    requires |tail| < |p| ==> p[|p| - |tail| - 1] == SLASH
    ensures tail == Basename(p)
  {
  }

  /** After a final '/', the basename is the '/'-free rest. */
  lemma BasenameAfterSlash(front: string, last: string)
    requires SLASH !in last
    ensures Basename(front + [SLASH] + last) == last
  {
    var p := front + [SLASH] + last;
    assert p[|p| - |last|..] == last;
    assert p[|p| - |last| - 1] == SLASH;
    BasenameUnique(p, last);
  }

  /** The basename is the last piece of `p.split('/')`. */
  lemma BasenameIsLastPiece(p: string)
    ensures Basename(p) == Split(p)[|Split(p)| - 1]
  {
    var parts := Split(p);
    var last := parts[|parts| - 1];
    JoinSplit(p);
    if |parts| >= 2 {
      JoinLast(parts);
      BasenameAfterSlash(Join(parts[..|parts| - 1]), last);
    } else {
      assert p == last;
      BasenameUnique(p, last);
    }
  }

  // ---------------------------------------------------------------------
  // os.path.splitext(p)[0]

  /**
   * The root that `posixpath.splitext(p)` returns: `p` without the text from
   * its last '.' on, provided that '.' lies after the last '/' and something
   * other than dots stands between the two; otherwise `p` itself.
   */
  function SplitExtRoot(p: string): (root: string)
    ensures |root| <= |p| && p[..|root|] == root
    ensures root != p ==> p[|root|] == DOT && SLASH !in p[|root|..] && DOT !in p[|root| + 1..]
  {
    var sepIndex := RFind(p, SLASH);
    var dotIndex := RFind(p, DOT);
    if dotIndex > sepIndex && exists i :: sepIndex < i < dotIndex && p[i] != DOT then p[..dotIndex]
    else p
  }

  /** The root of a '/'-free name with a non-dot character and one extension is the name. */
  lemma SplitExtRootOf(stem: string, ext: string, k: nat)
    requires SLASH !in stem && k < |stem| && stem[k] != DOT
    requires SLASH !in ext && DOT !in ext
    ensures SplitExtRoot(stem + [DOT] + ext) == stem
  {
    var p := stem + [DOT] + ext;
    assert p[|stem|] == DOT;
    assert p[k] == stem[k];
    assert p[..|stem|] == stem;
  }

  /** A name without '.' has no extension. */
  lemma SplitExtRootNoDot(p: string)
    requires DOT !in p
    ensures SplitExtRoot(p) == p
  {
  }

  // ---------------------------------------------------------------------
  // x[-4:]

  /** `x[-4:]`: the last four characters of `x`, or all of `x` when shorter. */
  function LastFour(x: string): (r: string)
    ensures |r| == if |x| < 4 then |x| else 4
    ensures x[|x| - |r|..] == r
  {
    if |x| >= 4 then x[|x| - 4..] else x
  }

  // ---------------------------------------------------------------------
  // ''.join(map(lambda c: '' if c in '0123456789' else c, s))

  predicate IsDigit(c: char) {
    '0' <= c <= '9'
  }

  /** `s` with every decimal digit removed. */
  function StripDigits(s: string): (r: string)
    ensures forall i :: 0 <= i < |r| ==> !IsDigit(r[i])
    ensures |r| <= |s|
  {
    if s == [] then ""
    else (if IsDigit(s[0]) then "" else [s[0]]) + StripDigits(s[1..])
  }

  /** Removing digits distributes over concatenation. */
  lemma {:induction false} StripDigitsAppend(a: string, b: string)
    ensures StripDigits(a + b) == StripDigits(a) + StripDigits(b)
  {
    if a == [] {
      assert a + b == b;
    } else {
      var head := if IsDigit(a[0]) then "" else [a[0]];
      assert (a + b)[0] == a[0] && (a + b)[1..] == a[1..] + b;
      StripDigitsAppend(a[1..], b);
      assert StripDigits(a + b) == head + (StripDigits(a[1..]) + StripDigits(b));
      assert StripDigits(a) == head + StripDigits(a[1..]);
    }
  }

  /** Every non-digit character keeps its count, every digit is gone. */
  lemma {:induction false} StripDigitsCounts(s: string, c: char)
    ensures multiset(StripDigits(s))[c] == if IsDigit(c) then 0 else multiset(s)[c]
  {
    if s != [] {
      StripDigitsCounts(s[1..], c);
      var head := if IsDigit(s[0]) then "" else [s[0]];
      assert s == [s[0]] + s[1..];
      assert multiset(s) == multiset([s[0]]) + multiset(s[1..]);
      assert multiset(StripDigits(s)) == multiset(head) + multiset(StripDigits(s[1..]));
    }
  }

  /** Removing digits changes exactly the strings that have a digit. */
  lemma {:induction false} StripDigitsUnchanged(s: string)
    ensures StripDigits(s) == s <==> forall i :: 0 <= i < |s| ==> !IsDigit(s[i])
  {
    if s != [] {
      StripDigitsUnchanged(s[1..]);
      if IsDigit(s[0]) {
        assert |StripDigits(s)| < |s|;
      } else {
        assert forall i :: 1 <= i < |s| ==> s[i] == s[1..][i - 1];
      }
    }
  }

  /** A string of digits only vanishes. */
  lemma {:induction false} NoDigitsLeft(s: string)
    requires forall i :: 0 <= i < |s| ==> IsDigit(s[i])
    ensures StripDigits(s) == ""
  {
    if s != [] {
      assert forall i :: 0 <= i < |s| - 1 ==> s[1..][i] == s[i + 1];
      NoDigitsLeft(s[1..]);
    }
  }

  /** Removing digits twice is removing them once. */
  lemma StripDigitsIdempotent(s: string)
    ensures StripDigits(StripDigits(s)) == StripDigits(s)
  {
    StripDigitsUnchanged(StripDigits(s));
  }
}
