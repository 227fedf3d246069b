/** The string utilities of Go's standard library that the parser relies on:
    strings.Index, strings.Split, strings.Join, strings.HasSuffix,
    strings.ToLower (ASCII part), decimal formatting of counts and the
    decimal digit value of a string. */
module Text {
  import opened Wrappers

  /** True when `sep` occurs in `s` starting at position `j`. */
  predicate OccursAt(s: string, sep: string, j: int) {
    0 <= j && j + |sep| <= |s| && s[j..j + |sep|] == sep
  }

  /** True when `sep` occurs anywhere in `s`. */
  predicate Contains(s: string, sep: string) {
    exists j :: 0 <= j <= |s| && OccursAt(s, sep, j)
  }

  lemma OccursShift(s: string, sep: string, j: int)
    requires |s| > 0 && 0 <= j
    ensures OccursAt(s, sep, j + 1) <==> OccursAt(s[1..], sep, j)
  {
    if 0 <= j && j + 1 + |sep| <= |s| {
      assert s[1..][j..j + |sep|] == s[j + 1..j + 1 + |sep|];
    }
  }

  lemma ContainsChar(s: string, c: char)
    ensures Contains(s, [c]) <==> c in s
  {
    if c in s {
      var j :| 0 <= j < |s| && s[j] == c;
      assert s[j..j + 1] == [c];
      assert OccursAt(s, [c], j);
    }
    if Contains(s, [c]) {
      var j :| 0 <= j <= |s| && OccursAt(s, [c], j);
      assert j + 1 <= |s| && s[j..j + 1] == [c];
      assert s[j] == s[j..j + 1][0];
    }
  }

  /** strings.Index for a non-empty separator; IndexOfSpec states that it
      finds the leftmost occurrence. */
  function IndexOf(s: string, sep: string): (r: Option<nat>)
    requires |sep| > 0
    ensures r.Some? ==> r.value + |sep| <= |s|
    decreases |s|
  {
    if |s| < |sep| then None
    else if s[..|sep|] == sep then Some(0)
    else match IndexOf(s[1..], sep)
      case None => None
      case Some(i) => Some(i + 1)
  }

  /** strings.Index returns the leftmost occurrence, and nothing exactly when
      there is none. */
  lemma {:induction false} IndexOfSpec(s: string, sep: string)
    requires |sep| > 0
    ensures IndexOf(s, sep).Some? ==> OccursAt(s, sep, IndexOf(s, sep).value)
    ensures IndexOf(s, sep).Some? ==> forall j :: 0 <= j < IndexOf(s, sep).value ==> !OccursAt(s, sep, j)
    ensures IndexOf(s, sep).None? <==> !Contains(s, sep)
    decreases |s|
  {
    if |s| < |sep| {
    } else if s[..|sep|] == sep {
      assert OccursAt(s, sep, 0);
    } else {
      IndexOfSpec(s[1..], sep);
      forall j | 0 <= j ensures OccursAt(s, sep, j + 1) <==> OccursAt(s[1..], sep, j) {
        OccursShift(s, sep, j);
      }
      match IndexOf(s[1..], sep)
      case None =>
        forall j ensures !OccursAt(s, sep, j) {
          if j > 0 {
            assert !OccursAt(s[1..], sep, j - 1);
          }
        }
      case Some(i) =>
        assert OccursAt(s[1..], sep, i);
        forall j | 0 < j < i + 1 ensures !OccursAt(s, sep, j) {
          assert !OccursAt(s[1..], sep, j - 1);
        }
    }
  }

  /** strings.Split for a non-empty separator: the pieces between the
      successive leftmost non-overlapping occurrences of `sep`. */
  function Split(s: string, sep: string): (parts: seq<string>)
    requires |sep| > 0
    ensures |parts| >= 1
    decreases |s|
  {
    match IndexOf(s, sep)
    case None => [s]
    case Some(i) => [s[..i]] + Split(s[i + |sep|..], sep)
  }

  /** strings.Join. */
  function Join(parts: seq<string>, sep: string): string
  {
    if |parts| == 0 then ""
    else if |parts| == 1 then parts[0]
    else parts[0] + sep + Join(parts[1..], sep)
  }

  /** Joining a list with a first element in front puts that element and a
      separator in front of the join. */
  lemma JoinCons(p: string, rest: seq<string>, sep: string)
    requires |rest| >= 1
    ensures Join([p] + rest, sep) == p + sep + Join(rest, sep)
  {
    assert ([p] + rest)[1..] == rest;
  }

  /** What strings.Index found: an occurrence with none before it. */
  lemma IndexOfFound(s: string, sep: string, i: nat)
    requires |sep| > 0 && IndexOf(s, sep) == Some(i)
    ensures OccursAt(s, sep, i)
    ensures forall j :: 0 <= j < i ==> !OccursAt(s, sep, j)
  {
    IndexOfSpec(s, sep);
  }

  /** strings.Index finds nothing only when there is no occurrence. */
  lemma IndexOfNone(s: string, sep: string)
    requires |sep| > 0 && IndexOf(s, sep).None?
    ensures !Contains(s, sep)
  {
    IndexOfSpec(s, sep);
  }

  /** One step of Split: the piece before the leftmost separator, then the
      split of what follows it. */
  lemma SplitStep(s: string, sep: string, i: nat)
    requires |sep| > 0 && IndexOf(s, sep) == Some(i)
    ensures Split(s, sep) == [s[..i]] + Split(s[i + |sep|..], sep)
  {
  }

  /** Without a separator the split is the whole string. */
  lemma SplitNone(s: string, sep: string)
    requires |sep| > 0 && IndexOf(s, sep).None?
    ensures Split(s, sep) == [s]
  {
  }

  /** A string is what precedes an occurrence, the occurrence, and what
      follows it. */
  lemma AroundOccurrence(s: string, sep: string, i: nat)
    requires OccursAt(s, sep, i)
    ensures s == s[..i] + sep + s[i + |sep|..]
  {
    assert s == s[..i] + s[i..i + |sep|] + s[i + |sep|..];
  }

  /** One step of Join after Split. */
  lemma JoinSplitStep(s: string, sep: string, i: nat)
    requires |sep| > 0 && IndexOf(s, sep) == Some(i)
    ensures Join(Split(s, sep), sep) == s[..i] + sep + Join(Split(s[i + |sep|..], sep), sep)
  {
    SplitStep(s, sep, i);
    JoinCons(s[..i], Split(s[i + |sep|..], sep), sep);
  }

  /** Joining the pieces of a split with the same separator gives back the
      original string. */
  lemma {:induction false} JoinSplit(s: string, sep: string)
    requires |sep| > 0
    ensures Join(Split(s, sep), sep) == s
    decreases |s|
  {
    match IndexOf(s, sep)
    case None =>
      SplitNone(s, sep);
    case Some(i) =>
      JoinSplitStep(s, sep, i);
      IndexOfFound(s, sep, i);
      AroundOccurrence(s, sep, i);
      JoinSplit(s[i + |sep|..], sep);
  }

  /** No piece of a split contains the separator. */
  lemma {:induction false} SplitPiecesAvoidSep(s: string, sep: string)
    requires |sep| > 0
    ensures forall k :: 0 <= k < |Split(s, sep)| ==> !Contains(Split(s, sep)[k], sep)
    decreases |s|
  {
    match IndexOf(s, sep)
    case None =>
      SplitNone(s, sep);
      IndexOfNone(s, sep);
    case Some(i) =>
      var rest := s[i + |sep|..];
      SplitStep(s, sep, i);
      IndexOfFound(s, sep, i);
      SplitPiecesAvoidSep(rest, sep);
      var head := s[..i];
      forall j | OccursAt(head, sep, j) ensures false {
        assert head[j..j + |sep|] == s[j..j + |sep|];
        assert OccursAt(s, sep, j);
      }
      var parts := Split(s, sep);
      forall k | 0 <= k < |parts| ensures !Contains(parts[k], sep) {
        if k > 0 {
          assert parts[k] == Split(rest, sep)[k - 1];
        }
      }
  }

  /** The pieces strings.Split produces, told apart from any other way of
      cutting the string at separators: no occurrence of the separator starts
      inside a piece but the last, that is, the separator after each such
      piece is the leftmost occurrence in what remains; the last piece holds
      none. */
  predicate LeftmostPieces(parts: seq<string>, sep: string)
    requires |sep| > 0
  {
    |parts| >= 1 &&
    (forall k :: 0 <= k < |parts| - 1 ==> !Contains(parts[k] + sep[..|sep| - 1], sep)) &&
    !Contains(parts[|parts| - 1], sep)
  }

  /** An occurrence that fits inside a prefix is an occurrence in the prefix. */
  lemma OccursInPrefix(s: string, t: string, sep: string, j: int)
    requires |t| <= |s| && s[..|t|] == t && j + |sep| <= |t|
    ensures OccursAt(s, sep, j) <==> OccursAt(t, sep, j)
  {
    if 0 <= j {
      assert forall m :: 0 <= m < |t| ==> s[m] == t[m];
      assert s[j..j + |sep|] == t[j..j + |sep|];
    }
  }

  /** An occurrence with none before it is what strings.Index finds. */
  lemma IndexOfAt(s: string, sep: string, i: nat)
    requires |sep| > 0 && OccursAt(s, sep, i)
    requires forall j :: 0 <= j < i ==> !OccursAt(s, sep, j)
    ensures IndexOf(s, sep) == Some(i)
  {
    IndexOfSpec(s, sep);
    assert 0 <= i <= |s|;
    assert Contains(s, sep);
  }

  /** strings.Index finds nothing when there is no occurrence. */
  lemma IndexOfAbsent(s: string, sep: string)
    requires |sep| > 0 && !Contains(s, sep)
    ensures IndexOf(s, sep).None?
  {
    IndexOfSpec(s, sep);
  }

  /** strings.Split cuts at the leftmost occurrences. */
  lemma {:induction false} SplitLeftmost(s: string, sep: string)
    requires |sep| > 0
    ensures LeftmostPieces(Split(s, sep), sep)
    decreases |s|
  {
    match IndexOf(s, sep)
    case None =>
      SplitNone(s, sep);
      IndexOfNone(s, sep);
    case Some(i) =>
      SplitStep(s, sep, i);
      IndexOfFound(s, sep, i);
      LeftmostHead(s, sep, i);
      var rest := s[i + |sep|..];
      SplitLeftmost(rest, sep);
      var parts := Split(s, sep);
      forall k | 1 <= k < |parts| ensures parts[k] == Split(rest, sep)[k - 1] {
      }
  }

  /** Before a leftmost occurrence, no occurrence starts in the piece it
      ends. */
  lemma LeftmostHead(s: string, sep: string, i: nat)
    requires |sep| > 0 && OccursAt(s, sep, i)
    requires forall j :: 0 <= j < i ==> !OccursAt(s, sep, j)
    ensures !Contains(s[..i] + sep[..|sep| - 1], sep)
  {
    var t := s[..i] + sep[..|sep| - 1];
    assert t == s[..i + |sep| - 1];
    forall j | 0 <= j <= |t| && OccursAt(t, sep, j) ensures false {
      OccursInPrefix(s, t, sep, j);
    }
  }

  /** In the join of leftmost pieces, the first separator is the one after
      the first piece. */
  lemma JoinHeadIndex(parts: seq<string>, sep: string)
    requires |sep| > 0 && |parts| >= 2
    requires !Contains(parts[0] + sep[..|sep| - 1], sep)
    ensures IndexOf(Join(parts, sep), sep) == Some(|parts[0]|)
    ensures Join(parts, sep)[..|parts[0]|] == parts[0]
    ensures Join(parts, sep)[|parts[0]| + |sep|..] == Join(parts[1..], sep)
  {
    var s := Join(parts, sep);
    var p := parts[0];
    var t := p + sep[..|sep| - 1];
    assert s == p + sep + Join(parts[1..], sep);
    assert s[|p|..|p| + |sep|] == sep;
    assert s[..|t|] == t;
    forall j | 0 <= j < |p| ensures !OccursAt(s, sep, j) {
      OccursInPrefix(s, t, sep, j);
    }
    IndexOfAt(s, sep, |p|);
  }

  /** The pieces after the first are leftmost pieces too. */
  lemma LeftmostTail(parts: seq<string>, sep: string)
    requires |sep| > 0 && |parts| >= 2 && LeftmostPieces(parts, sep)
    ensures LeftmostPieces(parts[1..], sep)
  {
    var more := parts[1..];
    assert forall k :: 0 <= k < |more| ==> more[k] == parts[k + 1];
  }

  /** Splitting the join of leftmost pieces gives back the pieces: with
      JoinSplit and SplitLeftmost, Split and Join are inverse bijections
      between strings and lists of leftmost pieces. */
  lemma {:induction false} SplitJoin(parts: seq<string>, sep: string)
    requires |sep| > 0 && LeftmostPieces(parts, sep)
    ensures Split(Join(parts, sep), sep) == parts
    decreases |parts|
  {
    var s := Join(parts, sep);
    if |parts| == 1 {
      IndexOfAbsent(s, sep);
      SplitNone(s, sep);
    } else {
      JoinHeadIndex(parts, sep);
      SplitStep(s, sep, |parts[0]|);
      LeftmostTail(parts, sep);
      SplitJoin(parts[1..], sep);
      assert parts == [parts[0]] + parts[1..];
    }
  }

  /** With a one-character separator the leftmost pieces are exactly the
      pieces free of that character. */
  lemma LeftmostPiecesChar(parts: seq<string>, c: char)
    requires |parts| >= 1
    ensures LeftmostPieces(parts, [c]) <==> forall k :: 0 <= k < |parts| ==> c !in parts[k]
  {
    forall k | 0 <= k < |parts|
      ensures Contains(parts[k] + [c][..|[c]| - 1], [c]) <==> c in parts[k]
      ensures Contains(parts[k], [c]) <==> c in parts[k]
    {
      assert parts[k] + [c][..|[c]| - 1] == parts[k];
      ContainsChar(parts[k], c);
    }
  }

  /** A leftmost occurrence of a character does not occur before itself. */
  lemma LeftmostChar(s: string, c: char, i: nat)
    requires OccursAt(s, [c], i)
    requires forall j :: 0 <= j < i ==> !OccursAt(s, [c], j)
    ensures i < |s| && s[i] == c && c !in s[..i]
  {
    assert s[i] == s[i..i + 1][0];
    if c in s[..i] {
      var j :| 0 <= j < i && s[..i][j] == c;
      assert s[j..j + 1] == [c];
      assert OccursAt(s, [c], j);
    }
  }

  /** Counting a character on both sides of one of its occurrences. */
  lemma CountAround(s: string, i: nat)
    requires i < |s|
    ensures multiset(s)[s[i]] == multiset(s[..i])[s[i]] + 1 + multiset(s[i + 1..])[s[i]]
  {
    assert s == s[..i] + [s[i]] + s[i + 1..];
  }

  /** Splitting on a one-character separator yields one more piece than the
      number of occurrences of that character. */
  lemma {:induction false} SplitCountChar(s: string, c: char)
    ensures |Split(s, [c])| == multiset(s)[c] + 1
    decreases |s|
  {
    match IndexOf(s, [c])
    case None =>
      SplitNone(s, [c]);
      IndexOfNone(s, [c]);
      ContainsChar(s, c);
    case Some(i) =>
      var rest := s[i + 1..];
      SplitStep(s, [c], i);
      IndexOfFound(s, [c], i);
      SplitCountChar(rest, c);
      LeftmostChar(s, c, i);
      CountAround(s, i);
  }

  /** Splitting the join of separator-free pieces on a one-character separator
      gives back the pieces. */
  lemma SplitJoinChar(parts: seq<string>, c: char)
    requires |parts| >= 1
    requires forall k :: 0 <= k < |parts| ==> c !in parts[k]
    ensures Split(Join(parts, [c]), [c]) == parts
  {
    LeftmostPiecesChar(parts, c);
    SplitJoin(parts, [c]);
  }

  /** strings.HasSuffix. */
  predicate HasSuffix(s: string, suffix: string) {
    |suffix| <= |s| && s[|s| - |suffix|..] == suffix
  }

  /** Lower-casing of one character, restricted to ASCII letters. */
  function LowerChar(c: char): char {
    if 'A' <= c <= 'Z' then (c as int - 'A' as int + 'a' as int) as char else c
  }

  /** strings.ToLower restricted to ASCII letters. */
  function ToLower(s: string): (r: string)
    ensures |r| == |s|
    ensures forall i :: 0 <= i < |s| ==> r[i] == LowerChar(s[i])
  {
    seq(|s|, i requires 0 <= i < |s| => LowerChar(s[i]))
  }

  /** Go's %q verb, without the escaping of special characters. */
  function Quote(s: string): string {
    "\"" + s + "\""
  }

  predicate IsDigit(c: char) {
    '0' <= c <= '9'
  }

  predicate AllDigits(s: string) {
    forall i :: 0 <= i < |s| ==> IsDigit(s[i])
  }

  function DigitValue(c: char): nat
    requires IsDigit(c)
  {
    c as int - '0' as int
  }

  function DigitChar(d: nat): (c: char)
    requires d < 10
    ensures IsDigit(c) && DigitValue(c) == d
  {
    ('0' as int + d) as char
  }

  /** The number a string of decimal digits denotes (leading zeros allowed). */
  function DecimalValue(s: string): nat
    requires AllDigits(s)
  {
    if |s| == 0 then 0
    else DecimalValue(s[..|s| - 1]) * 10 + DigitValue(s[|s| - 1])
  }

  /** Decimal formatting of a natural number (Go's %d). */
  function NatToString(n: nat): (s: string)
    ensures |s| >= 1 && AllDigits(s)
    decreases n
  {
    if n < 10 then [DigitChar(n)]
    else NatToString(n / 10) + [DigitChar(n % 10)]
  }

  /** Reading back a formatted number gives the number. */
  lemma {:induction false} DecimalOfNatToString(n: nat)
    ensures DecimalValue(NatToString(n)) == n
    decreases n
  {
    var s := NatToString(n);
    if n >= 10 {
      DecimalOfNatToString(n / 10);
      assert s[..|s| - 1] == NatToString(n / 10);
    }
  }

  /** Formatting is injective, so distinct counts render differently. */
  lemma NatToStringInjective(m: nat, n: nat)
    requires NatToString(m) == NatToString(n)
    ensures m == n
  {
    DecimalOfNatToString(m);
    DecimalOfNatToString(n);
  }
}
