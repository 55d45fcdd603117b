/**
 * The JavaScript string operations the recorder relies on: `trim`, `split`
 * with a one-character separator, `join`, `toLowerCase` on tag names and the
 * decimal rendering of integers inside template strings.
 */
module Strings {

  /** JavaScript's WhiteSpace and LineTerminator code points, which `trim` strips. */
  predicate IsWhitespace(c: char) {
    || c == '\t' || c == '\n' || c == '\U{000B}' || c == '\U{000C}' || c == '\r'
    || c == ' ' || c == '\U{00A0}' || c == '\U{1680}'
    || ('\U{2000}' <= c <= '\U{200A}')
    || c == '\U{2028}' || c == '\U{2029}' || c == '\U{202F}' || c == '\U{205F}'
    || c == '\U{3000}' || c == '\U{FEFF}'
  }

  predicate AllWhitespace(s: string) {
    forall k :: 0 <= k < |s| ==> IsWhitespace(s[k])
  }

  /** `trimLeft`: the suffix that starts at the first non-whitespace character. */
  function TrimStart(s: string): (r: string)
    ensures |r| <= |s| && r == s[|s| - |r|..]
    ensures AllWhitespace(s[..|s| - |r|])
    ensures r == [] || !IsWhitespace(r[0])
  {
    if s == [] || !IsWhitespace(s[0]) then s else TrimStart(s[1..])
  }

  /** `trimRight`: the prefix that ends at the last non-whitespace character. */
  function TrimEnd(s: string): (r: string)
    ensures |r| <= |s| && r == s[..|r|]
    ensures AllWhitespace(s[|r|..])
    ensures r == [] || !IsWhitespace(r[|r| - 1])
  {
    if s == [] || !IsWhitespace(s[|s| - 1]) then s else TrimEnd(s[..|s| - 1])
  }

  /** `trim` (and `trimLeft().trimRight()`, which is the same). */
  function Trim(s: string): (r: string)
  {
    TrimEnd(TrimStart(s))
  }

  /** `s.trim() === ''` */
  predicate IsBlank(s: string) {
    Trim(s) == ""
  }

  /** Trimming keeps a contiguous middle part and strips only whitespace around it. */
  lemma TrimIsMiddle(s: string)
    ensures exists i, j :: (0 <= i <= j <= |s| && Trim(s) == s[i..j]
                             && AllWhitespace(s[..i]) && AllWhitespace(s[j..]))
    ensures Trim(s) == [] || (!IsWhitespace(Trim(s)[0]) && !IsWhitespace(Trim(s)[|Trim(s)| - 1]))
  {
    var t := TrimStart(s);
    var i := |s| - |t|;
    var r := TrimEnd(t);
    var j := i + |r|;
    assert s[i..j] == r;
    assert s[j..] == t[|r|..];
    assert 0 <= i <= j <= |s| && Trim(s) == s[i..j] && AllWhitespace(s[..i]) && AllWhitespace(s[j..]);
  }

  lemma {:induction false} TrimStartOfWhitespace(s: string)
    requires AllWhitespace(s)
    ensures TrimStart(s) == []
  {
    if s != [] {
      TrimStartOfWhitespace(s[1..]);
    }
  }

  /** A string is blank exactly when every character in it is whitespace. */
  lemma BlankIffAllWhitespace(s: string)
    ensures IsBlank(s) <==> AllWhitespace(s)
  {
    if AllWhitespace(s) {
      TrimStartOfWhitespace(s);
    }
    if IsBlank(s) {
      var t := TrimStart(s);
      assert AllWhitespace(t[|TrimEnd(t)|..]);
      assert s == s[..|s| - |t|] + t;
    }
  }

  /** Index of the first occurrence of `c`. */
  function IndexOfChar(s: string, c: char): (i: nat)
    requires c in s
    ensures i < |s| && s[i] == c && c !in s[..i]
  {
    if s[0] == c then 0 else 1 + IndexOfChar(s[1..], c)
  }

  /** `parts.join(sep)` */
  function Join(parts: seq<string>, sep: string): string
  {
    if |parts| == 0 then ""
    else if |parts| == 1 then parts[0]
    else parts[0] + sep + Join(parts[1..], sep)
  }

  /** `s.split(sep)` for a one-character separator: the pieces between separators, empty ones included. */
  function Split(s: string, sep: char): (parts: seq<string>)
    ensures |parts| >= 1
    ensures forall k :: 0 <= k < |parts| ==> sep !in parts[k]
    decreases |s|
  {
    if sep !in s then [s]
    else
      var i := IndexOfChar(s, sep);
      [s[..i]] + Split(s[i + 1..], sep)
  }

  /** Joining the pieces of a split with the same separator gives back the string. */
  lemma {:induction false} JoinSplit(s: string, sep: char)
    ensures Join(Split(s, sep), [sep]) == s
    decreases |s|
  {
    if sep in s {
      var i := IndexOfChar(s, sep);
      var rest := s[i + 1..];
      JoinSplit(rest, sep);
      assert Split(s, sep) == [s[..i]] + Split(rest, sep);
      JoinCons(s[..i], Split(rest, sep), [sep]);
      assert s == s[..i] + [sep] + rest;
    }
  }

  predicate IsPrefix(p: string, s: string) {
    |p| <= |s| && p == s[..|p|]
  }

  lemma JoinCons(x: string, ps: seq<string>, sep: string)
    requires ps != []
    ensures Join([x] + ps, sep) == x + sep + Join(ps, sep)
  {
    assert ([x] + ps)[1..] == ps;
  }

  /** Joining the first `k` of some pieces gives a prefix of joining them all. */
  lemma {:induction false} JoinPrefix(ps: seq<string>, sep: string, k: nat)
    requires k <= |ps|
    ensures IsPrefix(Join(ps[..k], sep), Join(ps, sep))
  {
    if k == 0 {
    } else if |ps| == 1 {
      assert ps[..k] == ps;
    } else if k == 1 {
      assert ps[..k] == [ps[0]];
    } else {
      JoinPrefix(ps[1..], sep, k - 1);
      assert ps[..k] == [ps[0]] + ps[1..][..k - 1];
      JoinCons(ps[0], ps[1..][..k - 1], sep);
      assert ps == [ps[0]] + ps[1..];
      JoinCons(ps[0], ps[1..], sep);
      PrefixExtend(ps[0] + sep, Join(ps[1..][..k - 1], sep), Join(ps[1..], sep));
    }
  }

  /** Joining the first `k` pieces of a split gives a prefix of the string. */
  lemma JoinSplitPrefix(s: string, sep: char, k: nat)
    requires k <= |Split(s, sep)|
    ensures IsPrefix(Join(Split(s, sep)[..k], [sep]), s)
  {
    JoinPrefix(Split(s, sep), [sep], k);
    JoinSplit(s, sep);
  }

  lemma PrefixExtend(h: string, p: string, s: string)
    requires IsPrefix(p, s)
    ensures IsPrefix(h + p, h + s)
  {
    assert (h + s)[..|h + p|] == h + s[..|p|];
  }

  /** The first piece of a split is the prefix before the first separator. */
  lemma FirstPiece(s: string, sep: char)
    ensures Split(s, sep)[0] == (if sep in s then s[..IndexOfChar(s, sep)] else s)
  {
  }

  /** Number of occurrences of `c` in `s`. */
  function Count(s: string, c: char): nat {
    if s == [] then 0 else (if s[0] == c then 1 else 0) + Count(s[1..], c)
  }

  lemma {:induction false} CountSplit(s: string, c: char, i: nat)
    requires i <= |s|
    ensures Count(s, c) == Count(s[..i], c) + Count(s[i..], c)
  {
    if i > 0 {
      CountSplit(s[1..], c, i - 1);
      assert s[1..][..i - 1] == s[..i][1..];
      assert s[1..][i - 1..] == s[i..];
    }
  }

  lemma {:induction false} CountPositive(s: string, c: char)
    ensures c in s <==> Count(s, c) > 0
  {
    if s != [] {
      CountPositive(s[1..], c);
      assert s == [s[0]] + s[1..];
    }
  }

  /** A split has one piece more than there are separators. */
  lemma {:induction false} SplitCount(s: string, sep: char)
    ensures |Split(s, sep)| == Count(s, sep) + 1
    decreases |s|
  {
    CountPositive(s, sep);
    if sep in s {
      var i := IndexOfChar(s, sep);
      SplitCount(s[i + 1..], sep);
      CountSplit(s, sep, i);
      CountPositive(s[..i], sep);
      assert s[i..][1..] == s[i + 1..];
    }
  }

  lemma CountAppend(a: string, b: string, c: char)
    ensures Count(a + b, c) == Count(a, c) + Count(b, c)
  {
    CountSplit(a + b, c, |a|);
    assert (a + b)[..|a|] == a && (a + b)[|a|..] == b;
  }

  /**
   * `p` is the beginning of `s` up to its `k`-th separator `sep`, or all of
   * `s` when it has fewer than `k`.
   */
  predicate UpToNth(p: string, s: string, sep: char, k: nat) {
    && IsPrefix(p, s) && Count(p, sep) < k
    && (|p| == |s| || (s[|p|] == sep && Count(p, sep) == k - 1))
  }

  /** One more piece in front: the string and its beginning both gain `h`, which holds one separator. */
  lemma UpToNthCons(h: string, p: string, s: string, sep: char, k: nat)
    requires 1 <= k && UpToNth(p, s, sep, k) && Count(h, sep) == 1
    ensures UpToNth(h + p, h + s, sep, k + 1)
  {
    PrefixExtend(h, p, s);
    CountAppend(h, p, sep);
    if |p| < |s| {
      assert (h + s)[|h + p|] == s[|p|];
    }
  }

  /** The first `k` pieces of a split, or all of them when there are fewer. */
  function FirstPieces(s: string, sep: char, k: nat): (r: seq<string>)
    ensures var ps := Split(s, sep); r == ps[..if |ps| < k then |ps| else k]
  {
    var ps := Split(s, sep);
    ps[..if |ps| < k then |ps| else k]
  }

  /**
   * Joining the first `k` pieces of a split gives the beginning of the
   * string up to its `k`-th separator.
   */
  lemma {:induction false} JoinSplitUpTo(s: string, sep: char, k: nat)
    requires 1 <= k
    ensures UpToNth(Join(FirstPieces(s, sep, k), [sep]), s, sep, k)
    decreases |s|
  {
    if sep !in s || k == 1 {
      JoinFirstPiece(s, sep, k);
    } else {
      var i := IndexOfChar(s, sep);
      var rest := s[i + 1..];
      JoinSplitUpTo(rest, sep, k - 1);
      FirstPiecesCons(s, sep, k);
      UpToNthJoinCons(s[..i], FirstPieces(rest, sep, k - 1), rest, sep, k - 1);
    }
  }

  lemma JoinFirstPiece(s: string, sep: char, k: nat)
    requires 1 <= k && (sep !in s || k == 1)
    ensures UpToNth(Join(FirstPieces(s, sep, k), [sep]), s, sep, k)
  {
    if sep !in s {
      assert FirstPieces(s, sep, k) == [s];
      CountPositive(s, sep);
    } else {
      var i := IndexOfChar(s, sep);
      assert FirstPieces(s, sep, k) == [s[..i]];
      CountPositive(s[..i], sep);
    }
  }

  /** The pieces of a string with a separator: the part before it, then the pieces of the rest. */
  lemma FirstPiecesCons(s: string, sep: char, k: nat)
    requires 2 <= k && sep in s
    ensures var i := IndexOfChar(s, sep);
            && FirstPieces(s, sep, k) == [s[..i]] + FirstPieces(s[i + 1..], sep, k - 1)
            && s == s[..i] + [sep] + s[i + 1..]
  {
    var i := IndexOfChar(s, sep);
    SplitCons(s, sep);
    TakeCons(s[..i], Split(s[i + 1..], sep), k);
    SplitAround(s, i);
  }

  lemma SplitCons(s: string, sep: char)
    requires sep in s
    ensures var i := IndexOfChar(s, sep);
            Split(s, sep) == [s[..i]] + Split(s[i + 1..], sep)
  {
  }

  /** Taking `k` from a sequence with `x` in front takes `k - 1` from the rest. */
  lemma TakeCons<T>(x: T, qs: seq<T>, k: nat)
    requires 1 <= k
    ensures var ps := [x] + qs;
            ps[..if |ps| < k then |ps| else k] == [x] + qs[..if |qs| < k - 1 then |qs| else k - 1]
  {
  }

  lemma SplitAround(s: string, i: nat)
    requires i < |s|
    ensures s == s[..i] + [s[i]] + s[i + 1..]
  {
  }

  /** A piece without separators in front of joined pieces, and a separator in front of the rest. */
  lemma UpToNthJoinCons(x: string, qs: seq<string>, rest: string, sep: char, k: nat)
    requires 1 <= k && qs != [] && sep !in x && UpToNth(Join(qs, [sep]), rest, sep, k)
    ensures UpToNth(Join([x] + qs, [sep]), x + [sep] + rest, sep, k + 1)
  {
    JoinCons(x, qs, [sep]);
    CountPositive(x, sep);
    CountAppend(x, [sep], sep);
    UpToNthCons(x + [sep], Join(qs, [sep]), rest, sep, k);
  }

  /** `s.indexOf('//') > -1` */
  predicate HasDoubleSlash(s: string) {
    exists k :: 0 <= k < |s| - 1 && s[k] == '/' && s[k + 1] == '/'
  }

  function LowerChar(c: char): char {
    if 'A' <= c <= 'Z' then (c as int + 32) as char else c
  }

  /** `toLowerCase` on tag names (ASCII letters only). */
  function ToLower(s: string): (r: string)
    ensures |r| == |s| && forall k :: 0 <= k < |s| ==> r[k] == LowerChar(s[k])
  {
    if s == [] then [] else [LowerChar(s[0])] + ToLower(s[1..])
  }

  function Digit(d: nat): char
    requires d < 10
  {
    "0123456789"[d]
  }

  /** Decimal rendering of a natural number, without leading zeros. */
  function NatToString(n: nat): (r: string)
    ensures |r| >= 1
    ensures forall k :: 0 <= k < |r| ==> '0' <= r[k] <= '9'
    ensures (|r| == 1) == (n < 10)
  {
    if n < 10 then [Digit(n)] else NatToString(n / 10) + [Digit(n % 10)]
  }

  /** `${n}` for an integer. */
  function IntToString(n: int): (r: string)
    ensures |r| >= 1 && '@' !in r
  {
    if n < 0 then "-" + NatToString(-n) else NatToString(n)
  }

  lemma DigitInjective(a: nat, b: nat)
    requires a < 10 && b < 10 && Digit(a) == Digit(b)
    ensures a == b
  {
  }

  /** Distinct natural numbers have distinct decimal renderings. */
  lemma {:induction false} NatToStringInjective(a: nat, b: nat)
    requires NatToString(a) == NatToString(b)
    ensures a == b
  {
    var s := NatToString(a);
    if a < 10 && b < 10 {
      DigitInjective(a, b);
    } else if a >= 10 && b >= 10 {
      assert NatToString(a / 10) == s[..|s| - 1] == NatToString(b / 10);
      NatToStringInjective(a / 10, b / 10);
      DigitInjective(a % 10, b % 10);
    }
  }

  lemma SignChar(n: int)
    ensures (IntToString(n)[0] == '-') == (n < 0)
  {
    if n >= 0 {
      assert '0' <= NatToString(n)[0] <= '9';
    }
  }

  /** Distinct integers have distinct renderings. */
  lemma IntToStringInjective(a: int, b: int)
    requires IntToString(a) == IntToString(b)
    ensures a == b
  {
    SignChar(a);
    SignChar(b);
    if a < 0 {
      assert NatToString(-a) == IntToString(a)[1..] == NatToString(-b);
      NatToStringInjective(-a, -b);
    } else {
      NatToStringInjective(a, b);
    }
  }
}
