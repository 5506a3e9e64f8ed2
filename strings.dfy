/** Text helpers shared by the stores and the query server: the few std::string,
    std::getline and std::istream operations the C++ code relies on, stated over
    `string` (a `seq<char>`). */
module Strings {

  datatype Option<+T> = None | Some(value: T)

  /** std::string::find(char): the index of the first occurrence, or None for npos. */
  function Find(s: string, c: char): (r: Option<nat>)
    ensures r.Some? ==> r.value < |s| && s[r.value] == c && c !in s[..r.value]
    ensures r.None? <==> c !in s
  {
    if s == [] then None
    else if s[0] == c then Some(0)
    else match Find(s[1..], c)
      case None => None
      case Some(i) =>
        assert s[..i + 1] == [s[0]] + s[1..][..i];
        Some(i + 1)
  }

  /** The first occurrence is the one with none before it. */
  lemma FindIs(s: string, c: char, i: nat)
    requires i < |s| && s[i] == c && c !in s[..i]
    ensures Find(s, c) == Some(i)
  {
    assert s[i] in s;
    var k := Find(s, c).value;
    assert forall j | 0 <= j < i :: s[..i][j] == s[j];
    assert forall j | 0 <= j < k :: s[..k][j] == s[j];
  }

  /** The pieces of `s` between the occurrences of `sep`, empty pieces included. */
  function SplitOn(s: string, sep: char): (r: seq<string>)
    ensures |r| >= 1
    ensures forall k | 0 <= k < |r| :: sep !in r[k]
    decreases |s|
  {
    match Find(s, sep)
      case None => [s]
      case Some(i) => [s[..i]] + SplitOn(s[i + 1..], sep)
  }

  /** Joins pieces with `sep` between consecutive ones; SplitOn's inverse. */
  function JoinWith(pieces: seq<string>, sep: char): string
    requires |pieces| >= 1
  {
    if |pieces| == 1 then pieces[0] else pieces[0] + [sep] + JoinWith(pieces[1..], sep)
  }

  /** Splitting and joining again gives back the original text. */
  lemma {:induction false} JoinSplit(s: string, sep: char)
    ensures JoinWith(SplitOn(s, sep), sep) == s
    decreases |s|
  {
    match Find(s, sep)
      case None =>
      case Some(i) =>
        var rest := SplitOn(s[i + 1..], sep);
        assert SplitOn(s, sep) == [s[..i]] + rest;
        assert ([s[..i]] + rest)[1..] == rest;
        JoinSplit(s[i + 1..], sep);
        calc {
          JoinWith(SplitOn(s, sep), sep);
          s[..i] + [sep] + JoinWith(rest, sep);
          s[..i] + [sep] + s[i + 1..];
          s;
        }
  }

  /** Text without a separator is a single piece. */
  lemma {:induction false} SplitWithoutSeparator(s: string, sep: char)
    requires sep !in s
    ensures SplitOn(s, sep) == [s]
  {
  }

  /** Joining pieces free of the separator and splitting again gives back the pieces. */
  lemma {:induction false} SplitJoin(pieces: seq<string>, sep: char)
    requires |pieces| >= 1 && forall k | 0 <= k < |pieces| :: sep !in pieces[k]
    ensures SplitOn(JoinWith(pieces, sep), sep) == pieces
    decreases |pieces|
  {
    if |pieces| == 1 {
      SplitWithoutSeparator(pieces[0], sep);
    } else {
      var first := pieces[0];
      var rest := JoinWith(pieces[1..], sep);
      var s := first + [sep] + rest;
      assert s[..|first|] == first;
      FindIs(s, sep, |first|);
      assert s[|first| + 1..] == rest;
      SplitJoin(pieces[1..], sep);
      assert pieces == [first] + pieces[1..];
    }
  }

  /** The pieces std::getline(stream, piece, sep) yields one after the other: like
      SplitOn, except that empty input yields nothing and a trailing separator does
      not start one more (empty) piece. */
  function GetlinePieces(s: string, sep: char): (r: seq<string>)
    ensures forall k | 0 <= k < |r| :: sep !in r[k]
  {
    var pieces := SplitOn(s, sep);
    if pieces[|pieces| - 1] == [] then pieces[..|pieces| - 1] else pieces
  }

  /** std::getline reads back joined pieces when the last one is not empty. */
  lemma GetlineJoin(pieces: seq<string>, sep: char)
    requires |pieces| >= 1 && pieces[|pieces| - 1] != []
    requires forall k | 0 <= k < |pieces| :: sep !in pieces[k]
    ensures GetlinePieces(JoinWith(pieces, sep), sep) == pieces
  {
    SplitJoin(pieces, sep);
  }

  /** Whether `p` is a prefix of `s`. */
  predicate IsPrefix(p: string, s: string) {
    |p| <= |s| && s[..|p|] == p
  }

  /** std::string::find(sub) != npos. */
  predicate Contains(s: string, sub: string)
    decreases |s|
  {
    IsPrefix(sub, s) || (s != [] && Contains(s[1..], sub))
  }

  /** C-string view of a buffer: the characters before the first NUL. */
  function CString(buf: string): (r: string)
    ensures IsPrefix(r, buf) && '\0' !in r
    ensures |r| < |buf| ==> buf[|r|] == '\0'
  {
    match Find(buf, '\0')
      case None => buf
      case Some(i) => buf[..i]
  }

  // ---- Byte-wise ordering (SQLite's BINARY collation on TEXT) ----

  /** Strict lexicographic order on strings, comparing characters by code. */
  predicate LexLess(a: string, b: string)
    decreases |a|
  {
    if a == [] then b != []
    else if b == [] then false
    else if a[0] != b[0] then a[0] < b[0]
    else LexLess(a[1..], b[1..])
  }

  predicate LexLe(a: string, b: string) {
    a == b || LexLess(a, b)
  }

  lemma {:induction false} LexLessIrreflexive(a: string)
    ensures !LexLess(a, a)
    decreases |a|
  {
    if a != [] { LexLessIrreflexive(a[1..]); }
  }

  lemma {:induction false} LexLessAsymmetric(a: string, b: string)
    requires LexLess(a, b)
    ensures !LexLess(b, a)
    decreases |a|
  {
    if a != [] && b != [] && a[0] == b[0] { LexLessAsymmetric(a[1..], b[1..]); }
  }

  lemma {:induction false} LexLessTransitive(a: string, b: string, c: string)
    requires LexLess(a, b) && LexLess(b, c)
    ensures LexLess(a, c)
    decreases |a|
  {
    if a != [] && b != [] && c != [] && a[0] == b[0] && b[0] == c[0] {
      LexLessTransitive(a[1..], b[1..], c[1..]);
    }
  }

  /** Any two distinct strings are ordered one way or the other. */
  lemma {:induction false} LexLessTotal(a: string, b: string)
    requires a != b
    ensures LexLess(a, b) || LexLess(b, a)
    decreases |a|
  {
    if a != [] && b != [] && a[0] == b[0] {
      assert a == [a[0]] + a[1..] && b == [b[0]] + b[1..];
      LexLessTotal(a[1..], b[1..]);
    }
  }

  lemma LexLeTransitive(a: string, b: string, c: string)
    requires LexLe(a, b) && LexLe(b, c)
    ensures LexLe(a, c)
  {
    if a != b && b != c { LexLessTransitive(a, b, c); }
  }

  /** Strings sharing a prefix compare as their remainders do. */
  lemma {:induction false} LexLessCommonPrefix(p: string, a: string, b: string)
    ensures LexLess(p + a, p + b) <==> LexLess(a, b)
    decreases |p|
  {
    if p != [] {
      assert (p + a)[0] == p[0] == (p + b)[0];
      assert (p + a)[1..] == p[1..] + a && (p + b)[1..] == p[1..] + b;
      LexLessCommonPrefix(p[1..], a, b);
    } else {
      assert p + a == a && p + b == b;
    }
  }

  /** Two strings whose first differing position is `i` compare as their characters there. */
  lemma {:induction false} LexLessAt(a: string, b: string, i: nat)
    requires i < |a| && i < |b| && a[..i] == b[..i] && a[i] != b[i]
    ensures LexLess(a, b) <==> a[i] < b[i]
    decreases i
  {
    if i > 0 {
      assert a[1..][..i - 1] == a[..i][1..] && b[1..][..i - 1] == b[..i][1..];
      LexLessAt(a[1..], b[1..], i - 1);
    }
  }

  /** Comparing equal-length heads first: the heads decide unless they are equal. */
  lemma {:induction false} LexLessConcat(a1: string, a2: string, b1: string, b2: string)
    requires |a1| == |b1|
    ensures LexLess(a1 + a2, b1 + b2) <==> LexLess(a1, b1) || (a1 == b1 && LexLess(a2, b2))
    decreases |a1|
  {
    if a1 == [] {
      assert a1 + a2 == a2 && b1 + b2 == b2;
    } else {
      assert (a1 + a2)[0] == a1[0] && (b1 + b2)[0] == b1[0];
      assert (a1 + a2)[1..] == a1[1..] + a2 && (b1 + b2)[1..] == b1[1..] + b2;
      LexLessConcat(a1[1..], a2, b1[1..], b2);
      if a1[0] == b1[0] && a1[1..] == b1[1..] {
        assert a1 == [a1[0]] + a1[1..] && b1 == [b1[0]] + b1[1..];
      }
    }
  }

  // ---- Whitespace-separated tokens (operator>> into a std::string) ----

  /** isspace in the "C" locale. */
  predicate IsSpace(c: char) {
    c == ' ' || c == '\t' || c == '\n' || c == 11 as char || c == 12 as char || c == '\r'
  }

  function SkipSpace(s: string): (r: string)
    ensures |r| <= |s| && (r != [] ==> !IsSpace(r[0]))
    ensures r == s[|s| - |r|..]
  {
    if s != [] && IsSpace(s[0]) then SkipSpace(s[1..]) else s
  }

  /** The leading run of non-space characters. */
  function TakeWord(s: string): (r: string)
    ensures IsPrefix(r, s) && (|r| < |s| ==> IsSpace(s[|r|]))
    ensures forall k | 0 <= k < |r| :: !IsSpace(r[k])
  {
    if s == [] || IsSpace(s[0]) then [] else [s[0]] + TakeWord(s[1..])
  }

  /** One `stream >> word`: skip leading white space, read a maximal run of
      non-space characters; on an exhausted stream the word is left empty. */
  function ReadWord(s: string): (r: (string, string))
    ensures |r.1| <= |s|
    ensures r.0 == [] ==> r.1 == []
    ensures r.0 != [] ==> forall k | 0 <= k < |r.0| :: !IsSpace(r.0[k])
  {
    var t := SkipSpace(s);
    var w := TakeWord(t);
    (w, t[|w|..])
  }

  /** A word followed by white space or the end of the text is read whole. */
  lemma {:induction false} TakeWordOf(w: string, s: string)
    requires forall k | 0 <= k < |w| :: !IsSpace(w[k])
    requires s == [] || IsSpace(s[0])
    ensures TakeWord(w + s) == w
    decreases |w|
  {
    if w != [] {
      TakeWordOf(w[1..], s);
      assert (w + s)[1..] == w[1..] + s;
      assert w == [w[0]] + w[1..];
    }
  }

  /** Skipping white space stops at the first other character. */
  lemma SkipSpaceOf(pre: string, t: string)
    requires pre == [] || pre == " "
    requires t != [] && !IsSpace(t[0])
    ensures SkipSpace(pre + t) == t
  {
    if pre == " " {
      assert (pre + t)[1..] == t;
    }
  }

  /** `stream >> word` on a word after at most one space reads that word and stops
      before the white space that follows it. */
  lemma ReadWordOf(pre: string, w: string, s: string)
    requires pre == [] || pre == " "
    requires w != [] && forall k | 0 <= k < |w| :: !IsSpace(w[k])
    requires s == [] || IsSpace(s[0])
    ensures ReadWord(pre + w + s) == (w, s)
  {
    var t := w + s;
    assert pre + w + s == pre + t;
    SkipSpaceOf(pre, t);
    TakeWordOf(w, s);
    assert t[|w|..] == s;
  }
}
