/**
 * The parts of Go's `bytes` and `strings` packages that the HTTP core relies on:
 * finding CRLF or a single byte, splitting on a byte, trimming white space,
 * lower-casing and lexicographic comparison. A `char` stands for one octet; Go
 * strings and byte slices are both `seq<char>` here, and white space and case
 * are those of ASCII.
 */
module Strings {

  /** s holds "\r\n" starting at index i. */
  predicate CRLFAt(s: seq<char>, i: int) {
    0 <= i && i + 1 < |s| && s[i] == '\r' && s[i + 1] == '\n'
  }

  /** s holds no "\r\n" anywhere. */
  predicate NoCRLF(s: seq<char>) {
    forall i :: 0 <= i < |s| ==> !CRLFAt(s, i)
  }

  /** bytes.Index(s, []byte("\r\n")): the index of the first CRLF, or -1. */
  function IndexOfCRLF(s: seq<char>): (r: int)
    ensures r == -1 || CRLFAt(s, r)
    ensures forall i :: 0 <= i < |s| && (r == -1 || i < r) ==> !CRLFAt(s, i)
  {
    if |s| < 2 then -1
    else if s[0] == '\r' && s[1] == '\n' then 0
    else
      var k := IndexOfCRLF(s[1..]);
      assert forall i :: 1 <= i < |s| ==> (CRLFAt(s, i) <==> CRLFAt(s[1..], i - 1));
      if k == -1 then -1 else k + 1
  }

  /** Once a CRLF has arrived, bytes appended later do not move the first one. */
  lemma {:induction false} IndexOfCRLFExtend(x: seq<char>, y: seq<char>)
    requires IndexOfCRLF(x) != -1
    ensures IndexOfCRLF(x + y) == IndexOfCRLF(x)
  {
    var r := IndexOfCRLF(x);
    assert CRLFAt(x + y, r);
    forall i | 0 <= i < r
      ensures !CRLFAt(x + y, i)
    {
      assert !CRLFAt(x, i);
    }
  }

  /** A line without CRLF followed by CRLF: the first CRLF is the terminator. */
  lemma {:induction false} IndexOfCRLFAfterLine(line: seq<char>, rest: seq<char>)
    requires NoCRLF(line)
    ensures IndexOfCRLF(line + "\r\n" + rest) == |line|
  {
    var s := line + "\r\n" + rest;
    assert CRLFAt(s, |line|);
    forall i | 0 <= i < |line|
      ensures !CRLFAt(s, i)
    {
      if i + 1 < |line| {
        assert !CRLFAt(line, i);
      }
    }
  }

  /** bytes.IndexByte / strings.IndexByte: the index of the first c, or -1. */
  function IndexOf(s: seq<char>, c: char): (r: int)
    ensures r == -1 ==> c !in s
    ensures r != -1 ==> 0 <= r < |s| && s[r] == c && c !in s[..r]
  {
    if |s| == 0 then -1
    else if s[0] == c then 0
    else
      var k := IndexOf(s[1..], c);
      if k == -1 then -1
      else
        assert s[..k + 1] == [s[0]] + s[1..][..k];
        k + 1
  }

  /** The parts joined back with the separator between consecutive parts. */
  function Join(parts: seq<seq<char>>, sep: char): seq<char>
    requires |parts| >= 1
  {
    if |parts| == 1 then parts[0] else parts[0] + [sep] + Join(parts[1..], sep)
  }

  /**
   * strings.Split(s, string(sep)): the pieces between occurrences of sep. An
   * empty s gives one empty piece, as in Go.
   */
  function Split(s: seq<char>, sep: char): (parts: seq<seq<char>>)
    ensures |parts| >= 1
    ensures forall i :: 0 <= i < |parts| ==> sep !in parts[i]
    ensures Join(parts, sep) == s
    decreases |s|
  {
    var i := IndexOf(s, sep);
    if i == -1 then [s]
    else
      var rest := Split(s[i + 1..], sep);
      assert ([s[..i]] + rest)[1..] == rest;
      assert s == s[..i] + [sep] + s[i + 1..];
      [s[..i]] + rest
  }

  /** The number of occurrences of c in s. */
  function Count(s: seq<char>, c: char): nat {
    if |s| == 0 then 0 else (if s[0] == c then 1 else 0) + Count(s[1..], c)
  }

  lemma {:induction false} CountAppend(a: seq<char>, b: seq<char>, c: char)
    ensures Count(a + b, c) == Count(a, c) + Count(b, c)
  {
    if |a| == 0 {
      assert a + b == b;
    } else {
      assert (a + b)[1..] == a[1..] + b;
      CountAppend(a[1..], b, c);
    }
  }

  lemma {:induction false} CountAbsent(s: seq<char>, c: char)
    requires c !in s
    ensures Count(s, c) == 0
  {
    if |s| > 0 {
      CountAbsent(s[1..], c);
    }
  }

  /** A string holds one more piece than separators. */
  lemma {:induction false} SplitCount(s: seq<char>, sep: char)
    ensures |Split(s, sep)| == Count(s, sep) + 1
    decreases |s|
  {
    var i := IndexOf(s, sep);
    if i == -1 {
      CountAbsent(s, sep);
    } else {
      SplitCount(s[i + 1..], sep);
      CountAt(s, i, sep);
      CountAbsent(s[..i], sep);
      assert Split(s, sep) == [s[..i]] + Split(s[i + 1..], sep);
    }
  }

  /** Counting across a position: before it, the element itself, after it. */
  lemma {:induction false} CountAt(s: seq<char>, i: nat, c: char)
    requires i < |s|
    ensures Count(s, c) == Count(s[..i], c) + (if s[i] == c then 1 else 0) + Count(s[i + 1..], c)
  {
    var a, b := s[..i], s[i + 1..];
    assert s == a + ([s[i]] + b);
    CountAppend(a, [s[i]] + b, c);
    assert ([s[i]] + b)[1..] == b;
  }

  /** Join of two pieces written out. */
  lemma {:induction false} JoinTwo(parts: seq<seq<char>>, sep: char)
    requires |parts| == 2
    ensures Join(parts, sep) == parts[0] + [sep] + parts[1]
  {
    assert parts[1..] == [parts[1]];
  }

  /** Join of three pieces written out. */
  lemma {:induction false} JoinThree(parts: seq<seq<char>>, sep: char)
    requires |parts| == 3
    ensures Join(parts, sep) == parts[0] + [sep] + parts[1] + [sep] + parts[2]
  {
    var tail := parts[1..];
    assert tail[0] == parts[1] && tail[1..] == [parts[2]];
    assert Join(tail, sep) == parts[1] + [sep] + parts[2];
  }

  /** A string without the separator is a single piece. */
  lemma {:induction false} SplitNoSep(s: seq<char>, sep: char)
    requires sep !in s
    ensures Split(s, sep) == [s]
  {
    assert IndexOf(s, sep) == -1;
  }

  /** Dropping a prefix of x from x + y leaves the rest of x, then y. */
  lemma {:induction false} DropConcat(x: seq<char>, y: seq<char>, k: nat)
    requires k <= |x|
    ensures (x + y)[k..] == x[k..] + y
  {
  }

  /** Dropping i elements and then j more drops i + j. */
  lemma {:induction false} DropDrop(s: seq<char>, i: nat, j: nat)
    requires i + j <= |s|
    ensures s[i..][j..] == s[i + j..]
  {
  }

  /** The first i + n elements are the first i and then the n after them. */
  lemma {:induction false} TakeSplit(s: seq<char>, i: nat, n: nat)
    requires i + n <= |s|
    ensures s[..i + n] == s[..i] + s[i..i + n]
  {
  }

  /** A window of s read after dropping k is the same window read before. */
  lemma {:induction false} DropTake(s: seq<char>, k: nat, m: nat)
    requires k + m <= |s|
    ensures s[k..][..m] == s[..k + m][k..]
  {
  }

  lemma {:induction false} ConcatAssoc(a: seq<char>, b: seq<char>, c: seq<char>)
    ensures a + b + c == a + (b + c)
  {
  }

  /** Two pieces joined by a separator neither holds split back apart. */
  lemma {:induction false} SplitTwo(a: seq<char>, sep: char, b: seq<char>)
    requires sep !in a && sep !in b
    ensures Split(a + [sep] + b, sep) == [a, b]
  {
    SplitAfterPiece(a, sep, b);
    SplitNoSep(b, sep);
  }

  /** The first c of a + [c] + b is the one after a, when a holds none. */
  lemma {:induction false} IndexOfAfterPiece(a: seq<char>, c: char, b: seq<char>)
    requires c !in a
    ensures IndexOf(a + [c] + b, c) == |a|
  {
    var s := a + [c] + b;
    assert s[|a|] == c;
    assert forall j :: 0 <= j < |a| ==> s[j] == a[j];
  }

  /** Splitting a string whose first separator follows the piece `a`. */
  lemma {:induction false} SplitAfterPiece(a: seq<char>, sep: char, b: seq<char>)
    requires sep !in a
    ensures Split(a + [sep] + b, sep) == [a] + Split(b, sep)
  {
    var s := a + [sep] + b;
    IndexOfAfterPiece(a, sep, b);
    assert s[..|a|] == a && s[|a| + 1..] == b;
  }

  /** Split inverts Join: pieces that hold no separator are recovered exactly. */
  lemma {:induction false} SplitJoin(parts: seq<seq<char>>, sep: char)
    requires |parts| >= 1
    requires forall i :: 0 <= i < |parts| ==> sep !in parts[i]
    ensures Split(Join(parts, sep), sep) == parts
  {
    if |parts| == 1 {
      assert IndexOf(parts[0], sep) == -1;
    } else {
      SplitJoin(parts[1..], sep);
      SplitAfterPiece(parts[0], sep, Join(parts[1..], sep));
      assert [parts[0]] + parts[1..] == parts;
    }
  }

  /** White space as Go's ASCII fast path of TrimSpace sees it. */
  predicate IsSpace(c: char) {
    c == ' ' || c == '\t' || c == '\n' || c == '\U{B}' || c == '\U{C}' || c == '\r'
  }

  predicate AllSpace(s: seq<char>) {
    forall i :: 0 <= i < |s| ==> IsSpace(s[i])
  }

  /** Neither end of s is white space. */
  predicate IsTrimmed(s: seq<char>) {
    |s| == 0 || (!IsSpace(s[0]) && !IsSpace(s[|s| - 1]))
  }

  /** s without its leading white space. */
  function TrimLeft(s: seq<char>): (r: seq<char>)
    ensures |r| <= |s|
    ensures |r| == 0 || !IsSpace(r[0])
  {
    if |s| > 0 && IsSpace(s[0]) then TrimLeft(s[1..]) else s
  }

  /** TrimLeft cuts a run of white space off the front and keeps the rest as it is. */
  lemma {:induction false} TrimLeftShape(s: seq<char>)
    ensures var r := TrimLeft(s); r == s[|s| - |r|..] && AllSpace(s[..|s| - |r|])
  {
    if |s| > 0 && IsSpace(s[0]) {
      TrimLeftShape(s[1..]);
      var r := TrimLeft(s);
      assert s[1..][|s| - 1 - |r|..] == s[|s| - |r|..];
      assert forall i :: 0 <= i < |s| - |r| ==> s[i] == (if i == 0 then s[0] else s[1..][..|s| - 1 - |r|][i - 1]);
    }
  }

  /** s without its trailing white space. */
  function TrimRight(s: seq<char>): (r: seq<char>)
    ensures |r| <= |s| && r == s[..|r|]
    ensures AllSpace(s[|r|..])
    ensures |r| == 0 || !IsSpace(r[|r| - 1])
  {
    if |s| > 0 && IsSpace(s[|s| - 1]) then TrimRight(s[..|s| - 1]) else s
  }

  /** strings.TrimSpace / bytes.TrimSpace on ASCII white space. */
  function TrimSpace(s: seq<char>): (r: seq<char>)
    ensures |r| <= |s| && IsTrimmed(r)
  {
    TrimRight(TrimLeft(s))
  }

  lemma {:induction false} TrimLeftPadded(pad: seq<char>, x: seq<char>)
    requires AllSpace(pad)
    requires |x| == 0 || !IsSpace(x[0]) || AllSpace(x)
    ensures TrimLeft(pad + x) == if AllSpace(x) then [] else x
  {
    if |pad| > 0 {
      assert (pad + x)[1..] == pad[1..] + x;
      TrimLeftPadded(pad[1..], x);
    } else {
      assert pad + x == x;
      if |x| > 0 && AllSpace(x) {
        assert x[1..] == [] + x[1..];
        TrimLeftPadded([], x[1..]);
      }
    }
  }

  lemma {:induction false} TrimRightPadded(x: seq<char>, pad: seq<char>)
    requires AllSpace(pad)
    requires |x| == 0 || !IsSpace(x[|x| - 1])
    ensures TrimRight(x + pad) == x
  {
    if |pad| > 0 {
      assert (x + pad)[..|x + pad| - 1] == x + pad[..|pad| - 1];
      TrimRightPadded(x, pad[..|pad| - 1]);
    } else {
      assert x + pad == x;
    }
  }

  /** TrimSpace removes exactly the white space around a trimmed core. */
  lemma {:induction false} TrimSpacePadded(before: seq<char>, x: seq<char>, after: seq<char>)
    requires AllSpace(before) && AllSpace(after) && IsTrimmed(x)
    ensures TrimSpace(before + x + after) == x
  {
    assert before + x + after == before + (x + after);
    if |x| == 0 {
      assert x + after == after;
      TrimLeftPadded(before, after);
      assert TrimLeft(before + after) == [];
    } else {
      assert !AllSpace(x + after) by { assert (x + after)[0] == x[0]; }
      TrimLeftPadded(before, x + after);
      TrimRightPadded(x, after);
    }
  }

  /** TrimSpace leaves a trimmed string as it is. */
  lemma {:induction false} TrimSpaceTrimmed(x: seq<char>)
    requires IsTrimmed(x)
    ensures TrimSpace(x) == x
  {
    var none: seq<char> := [];
    assert none + x + none == x;
    TrimSpacePadded(none, x, none);
  }

  /** TrimSpace drops one leading blank before a trimmed string. */
  lemma {:induction false} TrimSpaceAfterBlank(x: seq<char>)
    requires IsTrimmed(x)
    ensures TrimSpace(" " + x) == x
  {
    var none: seq<char> := [];
    assert " " + x + none == " " + x;
    TrimSpacePadded(" ", x, none);
  }

  /** strings.TrimRight(s, string(c)): s without its trailing run of c. */
  function TrimRightChar(s: seq<char>, c: char): (r: seq<char>)
    ensures |r| <= |s| && r == s[..|r|]
    ensures forall i :: |r| <= i < |s| ==> s[i] == c
    ensures r == s <==> |s| == 0 || s[|s| - 1] != c
  {
    if |s| > 0 && s[|s| - 1] == c then TrimRightChar(s[..|s| - 1], c) else s
  }

  predicate IsUpper(c: char) {
    'A' <= c <= 'Z'
  }

  function LowerChar(c: char): char {
    if IsUpper(c) then (c as int + 32) as char else c
  }

  /** strings.ToLower restricted to ASCII letters. */
  function ToLower(s: seq<char>): (r: seq<char>)
    ensures |r| == |s|
    ensures forall i :: 0 <= i < |s| ==> r[i] == LowerChar(s[i])
  {
    seq(|s|, i requires 0 <= i < |s| => LowerChar(s[i]))
  }

  /** Lower-casing a lower-cased name changes nothing. */
  lemma {:induction false} ToLowerIdempotent(s: seq<char>)
    ensures ToLower(ToLower(s)) == ToLower(s)
  {
    assert forall i :: 0 <= i < |s| ==> LowerChar(LowerChar(s[i])) == LowerChar(s[i]);
  }

  /** strings.Compare: -1, 0 or 1 as a sorts before, equal to or after b, byte by byte. */
  function Compare(a: seq<char>, b: seq<char>): (r: int)
    ensures -1 <= r <= 1
    ensures r == 0 <==> a == b
  {
    if |a| == 0 && |b| == 0 then 0
    else if |a| == 0 then -1
    else if |b| == 0 then 1
    else if a[0] < b[0] then -1
    else if a[0] > b[0] then 1
    else
      assert a == [a[0]] + a[1..] && b == [b[0]] + b[1..];
      Compare(a[1..], b[1..])
  }

  /**
   * a sorts strictly before b byte by byte: a is a proper prefix of b, or at
   * the first position where they differ a holds the smaller byte.
   */
  predicate LexLess(a: seq<char>, b: seq<char>) {
    || (|a| < |b| && a == b[..|a|])
    || exists k :: 0 <= k < |a| && k < |b| && a[..k] == b[..k] && a[k] < b[k]
  }

  /** Compare answers -1 exactly when a sorts strictly before b. */
  lemma {:induction false} CompareLess(a: seq<char>, b: seq<char>)
    ensures Compare(a, b) < 0 <==> LexLess(a, b)
  {
    if |a| == 0 || |b| == 0 {
    } else if a[0] < b[0] {
      assert a[..0] == b[..0];
    } else if a[0] > b[0] {
      assert forall k :: 0 < k <= |a| && k <= |b| && a[..k] == b[..k] ==> a[..k][0] == b[..k][0];
      assert |a| < |b| ==> a[..|a|] == a;
    } else {
      var a', b' := a[1..], b[1..];
      CompareLess(a', b');
      if LexLess(a', b') {
        if |a'| < |b'| && a' == b'[..|a'|] {
          assert a == [a[0]] + a' && b[..|a|] == [b[0]] + b'[..|a'|];
        } else {
          var k :| 0 <= k < |a'| && k < |b'| && a'[..k] == b'[..k] && a'[k] < b'[k];
          assert a[..k + 1] == [a[0]] + a'[..k] && b[..k + 1] == [b[0]] + b'[..k];
        }
      }
      if LexLess(a, b) {
        if |a| < |b| && a == b[..|a|] {
          assert a' == b'[..|a'|];
        } else {
          var k :| 0 <= k < |a| && k < |b| && a[..k] == b[..k] && a[k] < b[k];
          assert k > 0;
          assert a'[..k - 1] == a[..k][1..] && b'[..k - 1] == b[..k][1..];
          assert a'[k - 1] < b'[k - 1];
        }
      }
    }
  }

  /** Swapping the operands negates the comparison. */
  lemma {:induction false} CompareAntisymmetric(a: seq<char>, b: seq<char>)
    ensures Compare(b, a) == -Compare(a, b)
  {
    if |a| > 0 && |b| > 0 && a[0] == b[0] {
      CompareAntisymmetric(a[1..], b[1..]);
    }
  }

  /** The order Compare defines is transitive. */
  lemma {:induction false} CompareTransitive(a: seq<char>, b: seq<char>, c: seq<char>)
    requires Compare(a, b) < 0 && Compare(b, c) < 0
    ensures Compare(a, c) < 0
  {
    if |a| > 0 && |b| > 0 && |c| > 0 && a[0] == b[0] && b[0] == c[0] {
      CompareTransitive(a[1..], b[1..], c[1..]);
    }
  }
}
