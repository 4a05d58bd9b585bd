/**
 * The java.lang.String operations the catalog's schema-line parser uses:
 * indexOf, substring, trim, split on a one-character delimiter and
 * equalsIgnoreCase, written out over sequences of characters.
 */
module JavaStrings {
  import opened Wrappers

  /** indexOf(c): the first position holding c, or -1. */
  function IndexOf(s: string, c: char): (r: int)
    ensures r == -1 <==> c !in s
    ensures r != -1 ==> 0 <= r < |s| && s[r] == c && forall j :: 0 <= j < r ==> s[j] != c
  {
    IndexFrom(s, c, 0)
  }

  /** The first position from i on holding c, or -1. */
  function IndexFrom(s: string, c: char, i: nat): (r: int)
    requires i <= |s|
    ensures r == -1 <==> forall j :: i <= j < |s| ==> s[j] != c
    ensures r != -1 ==> i <= r < |s| && s[r] == c && forall j :: i <= j < r ==> s[j] != c
    decreases |s| - i
  {
    if i == |s| then -1
    else if s[i] == c then i
    else IndexFrom(s, c, i + 1)
  }

  /** The position of c after a prefix in which it does not occur. */
  lemma {:induction false} IndexOfAfter(a: string, b: string, c: char)
    requires c !in a && c in b
    ensures IndexOf(a + b, c) == |a| + IndexOf(b, c)
  {
    var k := IndexOf(b, c);
    assert (a + b)[|a| + k] == c;
    assert (a + b)[..|a| + k] == a + b[..k];
  }

  /** substring(begin, end): StringIndexOutOfBoundsException unless 0 <= begin <= end <= length. */
  function Substring(s: string, begin: int, end: int): (r: Result<string>)
    ensures r.Ok? <==> 0 <= begin <= end <= |s|
    ensures r.Ok? ==> r.value == s[begin..end]
    ensures r.Err? ==> r.error == IndexOutOfBoundsException
  {
    if 0 <= begin <= end <= |s| then Ok(s[begin..end]) else Err(IndexOutOfBoundsException)
  }

  /** trim treats every character up to U+0020 as white space. */
  predicate IsSpace(c: char)
  {
    c as int <= 0x20
  }

  /** The number of leading white-space characters. */
  function LeadingSpace(s: string): (n: nat)
    ensures n <= |s| && (forall i :: 0 <= i < n ==> IsSpace(s[i])) && (n < |s| ==> !IsSpace(s[n]))
  {
    if |s| > 0 && IsSpace(s[0]) then 1 + LeadingSpace(s[1..]) else 0
  }

  /** The number of trailing white-space characters. */
  function TrailingSpace(s: string): (n: nat)
    ensures n <= |s| && (forall i :: |s| - n <= i < |s| ==> IsSpace(s[i]))
    ensures n < |s| ==> !IsSpace(s[|s| - n - 1])
  {
    if |s| > 0 && IsSpace(s[|s| - 1]) then 1 + TrailingSpace(s[..|s| - 1]) else 0
  }

  /** trim: the string without its leading and trailing white space. */
  function Trim(s: string): (r: string)
    ensures |r| <= |s|
    ensures r == [] || (!IsSpace(r[0]) && !IsSpace(r[|r| - 1]))
  {
    var t := s[LeadingSpace(s)..];
    t[..|t| - TrailingSpace(t)]
  }

  /** A string without white space at either end is its own trim. */
  lemma {:induction false} TrimTrimmed(s: string)
    requires s == [] || (!IsSpace(s[0]) && !IsSpace(s[|s| - 1]))
    ensures Trim(s) == s
  {
    assert LeadingSpace(s) == 0;
    assert s[0..] == s;
    assert TrailingSpace(s) == 0;
  }

  /** trim removes a run of white space in front of a string that has none at its ends. */
  lemma {:induction false} TrimSpaced(pad: string, s: string)
    requires forall i :: 0 <= i < |pad| ==> IsSpace(pad[i])
    requires |s| > 0 && !IsSpace(s[0]) && !IsSpace(s[|s| - 1])
    ensures Trim(pad + s) == s
  {
    LeadingPad(pad, s);
    assert (pad + s)[|pad|..] == s;
    assert TrailingSpace(s) == 0;
    assert s[..|s|] == s;
  }

  lemma {:induction false} LeadingPad(pad: string, s: string)
    requires forall i :: 0 <= i < |pad| ==> IsSpace(pad[i])
    requires |s| > 0 && !IsSpace(s[0])
    ensures LeadingSpace(pad + s) == |pad|
    decreases |pad|
  {
    if |pad| == 0 {
      assert pad + s == s;
    } else {
      assert (pad + s)[1..] == pad[1..] + s;
      LeadingPad(pad[1..], s);
    }
  }

  /** The pieces between the occurrences of d, empty ones included. */
  function Pieces(s: string, d: char): (r: seq<string>)
    ensures |r| >= 1
    ensures forall i :: 0 <= i < |r| ==> d !in r[i]
    decreases |s|
  {
    var k := IndexOf(s, d);
    if k == -1 then [s] else [s[..k]] + Pieces(s[k + 1..], d)
  }

  /** The list without its empty strings at the end. */
  function DropTrailingEmpty(xs: seq<string>): (r: seq<string>)
    ensures r <= xs
    ensures r == [] || r[|r| - 1] != []
    ensures forall i :: |r| <= i < |xs| ==> xs[i] == []
  {
    if |xs| == 0 || xs[|xs| - 1] != [] then xs else DropTrailingEmpty(xs[..|xs| - 1])
  }

  /**
   * split(d) with limit 0: the whole string when d does not occur, otherwise
   * the pieces between occurrences with trailing empty pieces removed.
   */
  function Split(s: string, d: char): (r: seq<string>)
    ensures forall i :: 0 <= i < |r| ==> d !in r[i]
    ensures d !in s ==> r == [s]
  {
    if d !in s then [s] else DropTrailingEmpty(Pieces(s, d))
  }

  /** The parts joined with d between each two. */
  function Join(parts: seq<string>, d: char): (s: string)
    requires |parts| >= 1
  {
    if |parts| == 1 then parts[0] else parts[0] + [d] + Join(parts[1..], d)
  }

  /** The first piece ends at the first delimiter. */
  lemma {:induction false} PiecesCons(a: string, rest: string, d: char)
    requires d !in a
    ensures Pieces(a + [d] + rest, d) == [a] + Pieces(rest, d)
  {
    var s := a + [d] + rest;
    assert s == a + ([d] + rest);
    IndexOfAfter(a, [d] + rest, d);
    assert s[..|a|] == a;
    assert s[|a| + 1..] == rest;
  }

  /** Splitting a joined list gives back its parts. */
  lemma {:induction false} PiecesJoin(parts: seq<string>, d: char)
    requires |parts| >= 1 && forall i :: 0 <= i < |parts| ==> d !in parts[i]
    ensures Pieces(Join(parts, d), d) == parts
    decreases |parts|
  {
    if |parts| > 1 {
      PiecesCons(parts[0], Join(parts[1..], d), d);
      assert forall i :: 0 <= i < |parts| - 1 ==> parts[1..][i] == parts[i + 1];
      PiecesJoin(parts[1..], d);
      assert parts == [parts[0]] + parts[1..];
    }
  }

  /**
   * split gives back the parts of a join when no part holds the delimiter
   * and the last part is not empty.
   */
  lemma {:induction false} SplitJoin(parts: seq<string>, d: char)
    requires |parts| >= 1 && forall i :: 0 <= i < |parts| ==> d !in parts[i]
    requires parts[|parts| - 1] != []
    ensures Split(Join(parts, d), d) == parts
  {
    PiecesJoin(parts, d);
    if |parts| > 1 {
      var s := Join(parts, d);
      assert s == parts[0] + [d] + Join(parts[1..], d);
      assert s[|parts[0]|] == d;
    }
  }

  /** A character that is neither the delimiter nor in any part is not in the join. */
  lemma {:induction false} JoinWithout(parts: seq<string>, d: char, c: char)
    requires |parts| >= 1 && c != d && forall i :: 0 <= i < |parts| ==> c !in parts[i]
    ensures c !in Join(parts, d)
    decreases |parts|
  {
    if |parts| > 1 {
      assert forall i :: 0 <= i < |parts| - 1 ==> parts[1..][i] == parts[i + 1];
      JoinWithout(parts[1..], d, c);
    }
  }

  /** A join ends with the last character of its last part. */
  lemma {:induction false} JoinLast(parts: seq<string>, d: char)
    requires |parts| >= 1 && parts[|parts| - 1] != []
    ensures var s := Join(parts, d); |s| > 0 && s[|s| - 1] == parts[|parts| - 1][|parts[|parts| - 1]| - 1]
    decreases |parts|
  {
    if |parts| > 1 {
      var rest := parts[1..];
      assert rest[|rest| - 1] == parts[|parts| - 1];
      JoinLast(rest, d);
    }
  }

  /** A join starts with its first part. */
  lemma {:induction false} JoinFirst(parts: seq<string>, d: char)
    requires |parts| >= 1 && parts[0] != []
    ensures var s := Join(parts, d); |s| > 0 && s[0] == parts[0][0]
  {
  }

  /** trim removes one trailing space from a string that has none at its ends. */
  lemma {:induction false} TrimSpaceAfter(s: string)
    requires |s| > 0 && !IsSpace(s[0]) && !IsSpace(s[|s| - 1])
    ensures Trim(s + " ") == s
  {
    var t := s + " ";
    assert LeadingSpace(t) == 0;
    assert t[0..] == t;
    assert t[..|t| - 1] == s;
    assert TrailingSpace(s) == 0;
    assert TrailingSpace(t) == 1;
  }

  /** Character.toUpperCase, written out for the characters whose upper case is an ASCII letter. */
  function UpperCase(c: char): char
  {
    if 'a' <= c <= 'z' then (c as int - 32) as char
    else if c == 'ı' then 'I'
    else if c == 'ſ' then 'S'
    else c
  }

  /** Character.toLowerCase, written out for the characters whose lower case is an ASCII letter. */
  function LowerCase(c: char): char
  {
    if 'A' <= c <= 'Z' then (c as int + 32) as char
    else if c == 'İ' then 'i'
    else if c == 'K' then 'k'
    else c
  }

  /** The character comparison of equalsIgnoreCase, against an ASCII letter or other character t. */
  predicate SameIgnoringCase(c: char, t: char)
  {
    c == t || UpperCase(c) == UpperCase(t) || LowerCase(UpperCase(c)) == LowerCase(UpperCase(t))
  }

  /** equalsIgnoreCase: the same length and every character the same up to case. */
  predicate EqualsIgnoreCase(s: string, t: string)
  {
    |s| == |t| && forall i :: 0 <= i < |s| ==> SameIgnoringCase(s[i], t[i])
  }
}
