/** The JavaScript string operations the site relies on, stated on `seq<char>`:
    `startsWith`, `indexOf`/`includes`, `replace` with a string pattern,
    `split` on one character, `filter(Boolean)`, `trim`, `toLowerCase` and
    the decimal text of a number. */
module Strings {
  import opened Wrappers

  /** `s.startsWith(p)` */
  predicate StartsWith(s: string, p: string) {
    |p| <= |s| && s[..|p|] == p
  }

  /** `p` occurs in `s` beginning at index `i`. */
  predicate OccursAt(s: string, p: string, i: int) {
    0 <= i && i + |p| <= |s| && s[i..i + |p|] == p
  }

  /** One differing character rules an occurrence out. */
  lemma Mismatch(s: string, p: string, i: int, k: nat)
    requires k < |p| && 0 <= i && i + |p| <= |s| && s[i + k] != p[k]
    ensures !OccursAt(s, p, i)
  {
    assert s[i..i + |p|][k] == s[i + k];
  }

  /** `s.indexOf(p, from)`: the first occurrence at or after `from`, or `None`
      where JavaScript answers -1. */
  function IndexFrom(s: string, p: string, from: nat): (r: Option<nat>)
    ensures r.Some? ==> from <= r.value && OccursAt(s, p, r.value)
    ensures forall j :: from <= j && (r.None? || j < r.value) ==> !OccursAt(s, p, j)
    decreases |s| - from
  {
    if from + |p| > |s| then None
    else if s[from..from + |p|] == p then Some(from)
    else IndexFrom(s, p, from + 1)
  }

  /** `s.indexOf(p)` */
  function IndexOf(s: string, p: string): Option<nat> {
    IndexFrom(s, p, 0)
  }

  /** `s.includes(p)` */
  predicate Contains(s: string, p: string) {
    IndexOf(s, p).Some?
  }

  /** `includes` holds exactly when there is an occurrence. */
  lemma ContainsIff(s: string, p: string)
    ensures Contains(s, p) <==> exists i :: OccursAt(s, p, i)
  {
    if Contains(s, p) {
      assert OccursAt(s, p, IndexOf(s, p).value);
    }
  }

  /** A character the text does not hold is not found in it. */
  lemma AbsentChar(s: string, c: char)
    requires c !in s
    ensures IndexOf(s, [c]) == None
  {
    forall i | 0 <= i < |s|
      ensures !OccursAt(s, [c], i)
    {
      assert s[i..i + 1][0] == s[i];
    }
  }

  /** A text occurs where it is put between two others. */
  lemma OccursBetween(a: string, p: string, b: string)
    ensures OccursAt(a + p + b, p, |a|)
  {
    assert (a + p + b)[|a|..|a| + |p|] == p;
  }

  /** An occurrence makes `includes` hold. */
  lemma OccursContains(s: string, p: string, i: int)
    requires OccursAt(s, p, i)
    ensures Contains(s, p)
  {
    ContainsIff(s, p);
  }

  /** `s.replace(p, rep)` with a string pattern: only the FIRST occurrence of
      `p`, wherever it is, is replaced. */
  function ReplaceFirst(s: string, p: string, rep: string): string {
    match IndexOf(s, p)
    case None => s
    case Some(i) => s[..i] + rep + s[i + |p|..]
  }

  /** `s.replace(p, "")` when `s` itself starts with `p`: the prefix goes. */
  lemma ReplaceFirstAtStart(s: string, p: string)
    requires StartsWith(s, p)
    ensures ReplaceFirst(s, p, "") == s[|p|..]
  {
    assert OccursAt(s, p, 0);
  }

  /** `s.split(c)` for a one-character separator: there is always at least
      one piece, and no piece holds the separator. */
  function Split(s: string, c: char): (r: seq<string>)
    ensures |r| >= 1
    ensures forall k :: 0 <= k < |r| ==> c !in r[k]
    decreases |s|
  {
    if s == [] then [""]
    else
      var rest := Split(s[1..], c);
      if s[0] == c then [""] + rest else [[s[0]] + rest[0]] + rest[1..]
  }

  /** `parts.join(c)` */
  function Join(parts: seq<string>, c: char): string
    requires |parts| >= 1
    decreases |parts|
  {
    if |parts| == 1 then parts[0] else parts[0] + [c] + Join(parts[1..], c)
  }

  lemma {:induction false} JoinPrepend(parts: seq<string>, a: char, c: char)
    requires |parts| >= 1
    ensures Join([[a] + parts[0]] + parts[1..], c) == [a] + Join(parts, c)
  {
    var q := [[a] + parts[0]] + parts[1..];
    if |parts| > 1 {
      assert q[1..] == parts[1..];
    }
  }

  /** Joining the pieces of a split gives the text back. */
  lemma {:induction false} JoinSplit(s: string, c: char)
    ensures Join(Split(s, c), c) == s
    decreases |s|
  {
    if s != [] {
      var rest := Split(s[1..], c);
      JoinSplit(s[1..], c);
      if s[0] == c {
        assert ([""] + rest)[1..] == rest;
      } else {
        JoinPrepend(rest, s[0], c);
      }
    }
  }

  /** Splitting text whose first `|a|` characters hold no separator. */
  lemma {:induction false} SplitPrefix(a: string, t: string, c: char)
    requires c !in a
    ensures Split(a + t, c) == [a + Split(t, c)[0]] + Split(t, c)[1..]
    decreases |a|
  {
    var r := Split(t, c);
    if a != [] {
      var x := a + t;
      assert x[0] == a[0] && x[1..] == a[1..] + t;
      SplitPrefix(a[1..], t, c);
      SplitCons(x, c);
      assert [a[0]] + (a[1..] + r[0]) == a + r[0];
    } else {
      assert a + t == t && a + r[0] == r[0];
      assert [r[0]] + r[1..] == r;
    }
  }

  /** A split whose text starts with something other than the separator. */
  lemma SplitCons(x: string, c: char)
    requires x != [] && x[0] != c
    ensures Split(x, c) == [[x[0]] + Split(x[1..], c)[0]] + Split(x[1..], c)[1..]
  {
  }

  /** Text without the separator splits into itself alone. */
  lemma SplitWhole(s: string, c: char)
    requires c !in s
    ensures Split(s, c) == [s]
  {
    SplitPrefix(s, [], c);
    assert s + [] == s;
  }

  /** Splitting joined pieces that hold no separator gives the pieces back. */
  lemma {:induction false} SplitJoin(parts: seq<string>, c: char)
    requires |parts| >= 1
    requires forall k :: 0 <= k < |parts| ==> c !in parts[k]
    ensures Split(Join(parts, c), c) == parts
    decreases |parts|
  {
    if |parts| == 1 {
      SplitPrefix(parts[0], [], c);
      assert parts[0] + [] == parts[0];
    } else {
      var tail := Join(parts[1..], c);
      SplitJoin(parts[1..], c);
      SplitPrefix(parts[0], [c] + tail, c);
      assert parts[0] + [c] + tail == parts[0] + ([c] + tail);
      assert ([c] + tail)[1..] == tail;
      var st := Split([c] + tail, c);
      assert st == [""] + Split(tail, c);
      assert parts[0] + st[0] == parts[0];
      assert [parts[0]] + parts[1..] == parts;
    }
  }

  /** The first piece of a split is the text before the first separator. */
  lemma {:induction false} SplitFirst(s: string, c: char)
    ensures c !in s ==> Split(s, c)[0] == s
    ensures c in s ==> exists i :: 0 <= i < |s| && s[i] == c && c !in s[..i] && Split(s, c)[0] == s[..i]
    decreases |s|
  {
    if s != [] {
      SplitFirst(s[1..], c);
      if s[0] == c {
        assert s[..0] == "";
      } else if c in s[1..] {
        var i :| 0 <= i < |s[1..]| && s[1..][i] == c && c !in s[1..][..i] && Split(s[1..], c)[0] == s[1..][..i];
        assert s[..i + 1] == [s[0]] + s[1..][..i];
      } else {
        assert s == [s[0]] + s[1..];
      }
    }
  }

  /** Every piece of a split occurs in the split text; the returned index is
      where. */
  lemma {:induction false} SplitPieceOccurs(s: string, c: char, k: nat) returns (i: nat)
    requires k < |Split(s, c)|
    ensures OccursAt(s, Split(s, c)[k], i)
    decreases |s|
  {
    if k == 0 {
      SplitFirstIsPrefix(s, c);
      i := 0;
    } else {
      var rest := Split(s[1..], c);
      var k' := if s[0] == c then k - 1 else k;
      assert Split(s, c)[k] == rest[k'];
      var j := SplitPieceOccurs(s[1..], c, k');
      OccursShift(s, rest[k'], j);
      i := j + 1;
    }
  }

  /** An occurrence in the tail is an occurrence one further on. */
  lemma OccursShift(s: string, p: string, j: int)
    requires s != [] && OccursAt(s[1..], p, j)
    ensures OccursAt(s, p, j + 1)
  {
    assert s[j + 1..j + 1 + |p|] == s[1..][j..j + |p|];
  }

  /** The first piece of a split is a prefix of the split text. */
  lemma {:induction false} SplitFirstIsPrefix(s: string, c: char)
    ensures StartsWith(s, Split(s, c)[0])
    decreases |s|
  {
    if s != [] {
      SplitFirstIsPrefix(s[1..], c);
    }
  }

  /** `strings.filter(Boolean)`: the non-empty strings, in order. */
  function NonEmpty(ss: seq<string>): (r: seq<string>)
    ensures |r| <= |ss|
    ensures forall k :: 0 <= k < |r| ==> r[k] != ""
    ensures forall x :: x in r <==> x in ss && x != ""
  {
    if ss == [] then []
    else (if ss[0] == "" then [] else [ss[0]]) + NonEmpty(ss[1..])
  }

  /** A list without empty strings is kept whole. */
  lemma {:induction false} NonEmptyAll(ss: seq<string>)
    requires forall k :: 0 <= k < |ss| ==> ss[k] != ""
    ensures NonEmpty(ss) == ss
  {
    if ss != [] {
      NonEmptyAll(ss[1..]);
      assert ss == [ss[0]] + ss[1..];
    }
  }

  /** In `p`, after `k` separators, comes the piece `a`, which runs up to the
      next separator or to the end: `a` is the first non-empty piece. */
  predicate PieceAt(p: string, c: char, k: nat, a: string) {
    && OccursAt(p, a, k) && a != "" && c !in a
    && (forall j :: 0 <= j < k ==> p[j] == c)
    && (k + |a| == |p| || p[k + |a|] == c)
  }

  lemma NonEmptySplitSeparator(p: string, c: char)
    requires p != [] && p[0] == c
    ensures NonEmpty(Split(p, c)) == NonEmpty(Split(p[1..], c))
  {
    var x := Split(p, c);
    assert x == [""] + Split(p[1..], c);
    assert x[1..] == Split(p[1..], c);
  }

  /** `split(c).filter(Boolean)[0]` is the piece after the leading separators. */
  lemma {:induction false} FirstPieceAt(p: string, c: char, k: nat, a: string)
    requires PieceAt(p, c, k, a)
    ensures NonEmpty(Split(p, c)) != [] && NonEmpty(Split(p, c))[0] == a
    decreases k
  {
    if k > 0 {
      PieceAtUnshift(p, c, k, a);
      NonEmptySplitSeparator(p, c);
      FirstPieceAt(p[1..], c, k - 1, a);
    } else {
      var rest := p[|a|..];
      assert p == a + rest;
      SplitPrefix(a, rest, c);
      SplitAtSeparator(rest, c);
      var x := Split(p, c);
      assert x[0] == a;
      NonEmptyFirst(x);
    }
  }

  /** A piece after a leading separator is one nearer in the rest. */
  lemma PieceAtUnshift(p: string, c: char, k: nat, a: string)
    requires k > 0 && PieceAt(p, c, k, a)
    ensures p != [] && p[0] == c && PieceAt(p[1..], c, k - 1, a)
  {
    assert p[1..][k - 1..k - 1 + |a|] == p[k..k + |a|];
    assert forall j :: 0 <= j < k - 1 ==> p[1..][j] == p[j + 1];
  }

  /** Text that is empty or starts with the separator has an empty first
      piece. */
  lemma SplitAtSeparator(s: string, c: char)
    requires s == [] || s[0] == c
    ensures Split(s, c)[0] == ""
  {
  }

  /** A list whose first string is non-empty keeps it first. */
  lemma NonEmptyFirst(ss: seq<string>)
    requires ss != [] && ss[0] != ""
    ensures NonEmpty(ss) != [] && NonEmpty(ss)[0] == ss[0]
  {
    assert ss == [ss[0]] + ss[1..];
  }

  /** Conversely, when there is a non-empty piece, the first one is where
      `PieceAt` says. */
  lemma {:induction false} FirstPieceShape(p: string, c: char) returns (k: nat)
    requires NonEmpty(Split(p, c)) != []
    ensures PieceAt(p, c, k, NonEmpty(Split(p, c))[0])
    decreases |p|
  {
    if p[0] == c {
      NonEmptySplitSeparator(p, c);
      var k' := FirstPieceShape(p[1..], c);
      PieceAtShift(p, c, k', NonEmpty(Split(p[1..], c))[0]);
      k := k' + 1;
    } else {
      FirstPieceNoSeparator(p, c);
      k := 0;
    }
  }

  /** A leading separator puts a piece one further on. */
  lemma PieceAtShift(p: string, c: char, k: nat, a: string)
    requires p != [] && p[0] == c && PieceAt(p[1..], c, k, a)
    ensures PieceAt(p, c, k + 1, a)
  {
    OccursShift(p, a, k);
    assert forall j :: 0 < j < k + 1 ==> p[j] == p[1..][j - 1];
    assert k + 1 + |a| < |p| ==> p[k + 1 + |a|] == p[1..][k + |a|];
  }

  /** Text that does not start with the separator: its first piece is
      non-empty, so it is the first non-empty one. */
  lemma FirstPieceNoSeparator(p: string, c: char)
    requires p != [] && p[0] != c
    ensures NonEmpty(Split(p, c)) != [] && PieceAt(p, c, 0, NonEmpty(Split(p, c))[0])
  {
    var x := Split(p, c);
    var a := x[0];
    assert a != "" by {
      SplitCons(p, c);
    }
    assert x == [a] + x[1..];
    assert NonEmpty(x) == [a] + NonEmpty(x[1..]);
    SplitFirstIsPrefix(p, c);
    SplitFirst(p, c);
  }

  /** The ECMAScript WhiteSpace and LineTerminator characters: what `trim`
      removes and what the regular-expression class `\s` matches. */
  predicate IsSpace(ch: char) {
    || ch == '\t' || ch == '\n' || ch == '\U{B}' || ch == '\U{C}' || ch == '\r' || ch == ' '
    || ch == '\U{A0}' || ch == '\U{1680}' || ('\U{2000}' <= ch <= '\U{200A}')
    || ch == '\U{2028}' || ch == '\U{2029}' || ch == '\U{202F}' || ch == '\U{205F}'
    || ch == '\U{3000}' || ch == '\U{FEFF}'
  }

  /** `s.trimStart()`: the suffix left after the leading white space. */
  function TrimStart(s: string): (r: string)
    ensures |r| <= |s| && r == s[|s| - |r|..]
    ensures r == [] || !IsSpace(r[0])
    ensures forall k :: 0 <= k < |s| - |r| ==> IsSpace(s[k])
  {
    if s != [] && IsSpace(s[0]) then TrimStart(s[1..]) else s
  }

  /** `s.trimEnd()`: the prefix left before the trailing white space. */
  function TrimEnd(s: string): (r: string)
    ensures |r| <= |s| && r == s[..|r|]
    ensures r == [] || !IsSpace(r[|r| - 1])
    ensures forall k :: |r| <= k < |s| ==> IsSpace(s[k])
  {
    if s != [] && IsSpace(s[|s| - 1]) then TrimEnd(s[..|s| - 1]) else s
  }

  /** `s.trim()`: what is left between the leading and the trailing white
      space; it occurs in `s`. */
  function Trim(s: string): (r: string)
    ensures r == [] || (!IsSpace(r[0]) && !IsSpace(r[|r| - 1]))
    ensures OccursAt(s, r, |s| - |TrimStart(s)|)
  {
    var t := TrimStart(s);
    var r := TrimEnd(t);
    assert r == [] || r[0] == t[0];
    PrefixOfSuffix(s, t, r);
    r
  }

  /** A prefix of a suffix occurs where the suffix starts. */
  lemma PrefixOfSuffix(s: string, t: string, r: string)
    requires |t| <= |s| && t == s[|s| - |t|..]
    requires |r| <= |t| && r == t[..|r|]
    ensures OccursAt(s, r, |s| - |t|)
  {
    var m := |s| - |t|;
    assert s[m..m + |r|] == s[m..][..|r|];
  }

  /** `trim` keeps exactly the text between the leading and the trailing
      white space: given where that text starts and ends, the result is
      determined. */
  lemma TrimSpec(s: string, i: nat, j: nat)
    requires i <= j <= |s|
    requires forall k :: 0 <= k < i ==> IsSpace(s[k])
    requires forall k :: j <= k < |s| ==> IsSpace(s[k])
    requires i < j ==> !IsSpace(s[i]) && !IsSpace(s[j - 1])
    ensures Trim(s) == s[i..j]
  {
    if i < j {
      TrimStartAt(s, i);
      var t := s[i..];
      assert forall k :: j - i <= k < |t| ==> IsSpace(t[k]) by {
        forall k | j - i <= k < |t| ensures IsSpace(t[k]) {
          assert t[k] == s[i + k];
        }
      }
      assert !IsSpace(t[j - i - 1]) by { assert t[j - i - 1] == s[j - 1]; }
      TrimEndAt(t, j - i);
      TakeOfDrop(s, i, j);
    } else {
      assert forall k :: 0 <= k < |s| ==> IsSpace(s[k]);
      TrimStartAt(s, |s|);
    }
  }

  /** `trim` takes off exactly the white space around a text that neither
      starts nor ends with white space. */
  lemma TrimAround(before: string, word: string, after: string)
    requires forall k :: 0 <= k < |before| ==> IsSpace(before[k])
    requires forall k :: 0 <= k < |after| ==> IsSpace(after[k])
    requires word == [] || (!IsSpace(word[0]) && !IsSpace(word[|word| - 1]))
    ensures Trim(before + word + after) == word
  {
    var s := before + word + after;
    var i, j := |before|, |before| + |word|;
    assert forall k :: 0 <= k < i ==> s[k] == before[k];
    assert forall k :: j <= k < |s| ==> s[k] == after[k - j];
    assert s[i..j] == word;
    TrimSpec(s, i, j);
  }

  lemma TakeOfDrop(s: string, i: nat, j: nat)
    requires i <= j <= |s|
    ensures s[i..][..j - i] == s[i..j]
  {
  }

  /** Leading white space up to index `i` and no more: `trimStart` starts
      there. */
  lemma {:induction false} TrimStartAt(s: string, i: nat)
    requires i <= |s|
    requires forall k :: 0 <= k < i ==> IsSpace(s[k])
    requires i < |s| ==> !IsSpace(s[i])
    ensures TrimStart(s) == s[i..]
    decreases i
  {
    if i > 0 {
      assert forall k :: 0 <= k < i - 1 ==> s[1..][k] == s[k + 1];
      TrimStartAt(s[1..], i - 1);
      assert s[1..][i - 1..] == s[i..];
    }
  }

  /** Trailing white space from index `n` on and no earlier: `trimEnd` stops
      there. */
  lemma {:induction false} TrimEndAt(s: string, n: nat)
    requires n <= |s|
    requires forall k :: n <= k < |s| ==> IsSpace(s[k])
    requires n > 0 ==> !IsSpace(s[n - 1])
    ensures TrimEnd(s) == s[..n]
    decreases |s| - n
  {
    if n < |s| {
      var u := s[..|s| - 1];
      assert forall k :: n <= k < |u| ==> u[k] == s[k];
      TrimEndAt(u, n);
      assert u[..n] == s[..n];
    }
  }

  /** ASCII `toLowerCase` of one character. */
  function LowerChar(ch: char): char {
    if 'A' <= ch <= 'Z' then (ch as int + 32) as char else ch
  }

  /** `s.toLowerCase()`, for the ASCII letters. */
  function Lower(s: string): (r: string)
    ensures |r| == |s|
    ensures forall k :: 0 <= k < |s| ==> r[k] == LowerChar(s[k])
  {
    seq(|s|, k requires 0 <= k < |s| => LowerChar(s[k]))
  }

  /** Lower-casing works character by character, so it keeps occurrences. */
  lemma LowerOccurs(s: string, p: string, i: int)
    requires OccursAt(s, p, i)
    ensures OccursAt(Lower(s), Lower(p), i)
  {
    assert forall k :: 0 <= k < |p| ==> s[i + k] == p[k] by {
      forall k | 0 <= k < |p| ensures s[i + k] == p[k] {
        assert s[i..i + |p|][k] == p[k];
      }
    }
  }

  /** An occurrence inside an occurrence is an occurrence. */
  lemma OccursTrans(c: string, b: string, a: string, j: int, i: int)
    requires OccursAt(c, b, j) && OccursAt(b, a, i)
    ensures OccursAt(c, a, j + i)
  {
    forall k | 0 <= k < |a| ensures c[j + i + k] == a[k] {
      assert c[j..j + |b|][i + k] == b[i + k];
      assert b[i..i + |a|][k] == a[k];
    }
    assert c[j + i..j + i + |a|] == a;
  }

  /** Lower-casing leaves white space, `-` and every non-letter alone. */
  lemma LowerCharKeeps(ch: char)
    ensures IsSpace(LowerChar(ch)) == IsSpace(ch)
    ensures (LowerChar(ch) == '-') == (ch == '-')
    ensures (LowerChar(ch) == ' ') == (ch == ' ')
    ensures !('A' <= LowerChar(ch) <= 'Z')
  {
  }

  lemma LowerIdempotent(s: string)
    ensures Lower(Lower(s)) == Lower(s)
  {
  }

  predicate IsDigit(ch: char) {
    '0' <= ch <= '9'
  }

  function DigitChar(d: nat): (ch: char)
    requires d < 10
    ensures IsDigit(ch)
  {
    ('0' as int + d) as char
  }

  /** `${n}` for a non-negative integer number: its decimal digits, without
      leading zeros. */
  function NatToString(n: nat): (r: string)
    ensures |r| >= 1
    ensures forall k :: 0 <= k < |r| ==> IsDigit(r[k])
  {
    if n < 10 then [DigitChar(n)] else NatToString(n / 10) + [DigitChar(n % 10)]
  }

  /** The value of a string of decimal digits. */
  function ParseNat(s: string): nat
    requires forall k :: 0 <= k < |s| ==> IsDigit(s[k])
  {
    if s == [] then 0
    else
      assert IsDigit(s[|s| - 1]);
      ParseNat(s[..|s| - 1]) * 10 + (s[|s| - 1] as int - '0' as int)
  }

  /** Reading the decimal text of a number back gives the number. */
  lemma {:induction false} ParseNatToString(n: nat)
    ensures ParseNat(NatToString(n)) == n
  {
    if n >= 10 {
      var s := NatToString(n);
      assert s[..|s| - 1] == NatToString(n / 10);
      ParseNatToString(n / 10);
    }
  }
}
