/** The string operations the commit codec relies on. Strings are sequences of code points. */
module Text {
  import opened Basics
  import opened Decimal

  const MIN_INT64: int := -0x8000_0000_0000_0000
  const MAX_INT64: int := 0x7fff_ffff_ffff_ffff

  lemma Assoc(a: string, b: string, c: string)
    ensures a + b + c == a + (b + c)
  {
  }

  // ------------------------------------------------------------------------- splitting

  /** All pieces between separators; one piece more than there are separators. */
  function Split(s: string, sep: char): (r: seq<string>)
    ensures |r| >= 1
    decreases |s|
  {
    var i := Index(s, sep);
    if i == |s| then [s] else [s[..i]] + Split(s[i + 1..], sep)
  }

  /** A text is cut at its first separator. */
  lemma CutAt(s: string, sep: char) returns (head: string, tail: string)
    requires Index(s, sep) < |s|
    ensures sep !in head && s == head + [sep] + tail && |tail| < |s|
    ensures Split(s, sep) == [head] + Split(tail, sep)
  {
    var i := Index(s, sep);
    IndexIsFirst(s, sep);
    head, tail := s[..i], s[i + 1..];
  }

  lemma NoCut(s: string, sep: char)
    requires Index(s, sep) == |s|
    ensures sep !in s && Split(s, sep) == [s]
  {
    IndexIsFirst(s, sep);
    assert s[..|s|] == s;
  }

  lemma SplitFirst(a: string, sep: char, b: string)
    requires sep !in a
    ensures Split(a + [sep] + b, sep) == [a] + Split(b, sep)
  {
    var s := a + [sep] + b;
    IndexAfter(a, sep, b);
    assert s[..|a|] == a && s[|a| + 1..] == b;
  }

  lemma {:induction false} SplitPieces(s: string, sep: char)
    ensures forall piece | piece in Split(s, sep) :: sep !in piece
    decreases |s|
  {
    if Index(s, sep) == |s| {
      NoCut(s, sep);
    } else {
      var head, tail := CutAt(s, sep);
      SplitPieces(tail, sep);
    }
  }

  lemma Regroup(head: string, sep: string, tail: string, b: string)
    ensures head + sep + tail + sep + b == head + sep + (tail + sep + b)
  {
    Assoc(head + sep, tail, sep);
    Assoc(head + sep, tail + sep, b);
  }

  lemma {:induction false} SplitCount(a: string, sep: char, b: string)
    ensures |Split(a + [sep] + b, sep)| == |Split(a, sep)| + |Split(b, sep)|
    decreases |a|
  {
    if Index(a, sep) == |a| {
      NoCut(a, sep);
      SplitFirst(a, sep, b);
    } else {
      var head, tail := CutAt(a, sep);
      SplitCount(tail, sep, b);
      Regroup(head, [sep], tail, b);
      SplitFirst(head, sep, tail + [sep] + b);
    }
  }

  /** Each piece followed by a line end. */
  function Lines(pieces: seq<string>): string {
    if pieces == [] then "" else pieces[0] + ['\n'] + Lines(pieces[1..])
  }

  lemma LinesCons(first: string, rest: seq<string>)
    ensures Lines([first] + rest) == first + ['\n'] + Lines(rest)
  {
    assert ([first] + rest)[1..] == rest;
  }

  lemma {:induction false} LinesSnoc(pieces: seq<string>, last: string)
    ensures Lines(pieces + [last]) == Lines(pieces) + (last + ['\n'])
  {
    if pieces == [] {
      assert [] + [last] == [last] + [];
      LinesCons(last, []);
      assert last + ['\n'] + [] == [] + (last + ['\n']);
    } else {
      var first, rest := pieces[0], pieces[1..];
      assert pieces == [first] + rest;
      assert pieces + [last] == [first] + (rest + [last]);
      LinesSnoc(rest, last);
      LinesCons(first, rest);
      LinesCons(first, rest + [last]);
      Assoc(first + ['\n'], Lines(rest), last + ['\n']);
    }
  }

  lemma {:induction false} LinesOfSplit(s: string)
    ensures Lines(Split(s, '\n')) == s + ['\n']
    decreases |s|
  {
    if Index(s, '\n') == |s| {
      NoCut(s, '\n');
      assert [s] == [s] + [];
      LinesCons(s, []);
      assert s + ['\n'] + [] == s + ['\n'];
    } else {
      var head, tail := CutAt(s, '\n');
      LinesOfSplit(tail);
      LinesCons(head, Split(tail, '\n'));
      Assoc(head + ['\n'], tail, ['\n']);
    }
  }

  /** Splitting a text that begins with whole lines. */
  lemma {:induction false} SplitLines(pieces: seq<string>, rest: string)
    requires forall piece | piece in pieces :: '\n' !in piece
    ensures Split(Lines(pieces) + rest, '\n') == pieces + Split(rest, '\n')
    decreases |pieces|
  {
    if pieces == [] {
      assert [] + rest == rest;
    } else {
      var first, others := pieces[0], pieces[1..];
      assert pieces == [first] + others;
      SplitLines(others, rest);
      LinesCons(first, others);
      Assoc(first + ['\n'], Lines(others), rest);
      SplitFirst(first, '\n', Lines(others) + rest);
      assert pieces + Split(rest, '\n') == [first] + (others + Split(rest, '\n'));
    }
  }

  // ------------------------------------------------------------------------- trimming

  /** The white space of Unicode. */
  predicate IsSpace(c: char) {
    var n := c as int;
    9 <= n <= 13 || n == 32 || n == 0x85 || n == 0xA0 || n == 0x1680 || 0x2000 <= n <= 0x200a ||
    n == 0x2028 || n == 0x2029 || n == 0x202f || n == 0x205f || n == 0x3000
  }

  function TrimLeft(s: string): string {
    if s == [] || !IsSpace(s[0]) then s else TrimLeft(s[1..])
  }

  function TrimRight(s: string): string {
    if s == [] || !IsSpace(s[|s| - 1]) then s else TrimRight(s[..|s| - 1])
  }

  function Trim(s: string): string {
    TrimLeft(TrimRight(s))
  }

  lemma {:induction false} LeftTrimmed(s: string)
    ensures var r := TrimLeft(s);
            && (r == [] || !IsSpace(r[0]))
            && |r| <= |s| && r == s[|s| - |r|..]
  {
    if s != [] && IsSpace(s[0]) {
      LeftTrimmed(s[1..]);
    }
  }

  lemma {:induction false} RightTrimmed(s: string)
    ensures var r := TrimRight(s);
            && (r == [] || !IsSpace(r[|r| - 1]))
            && |r| <= |s| && r == s[..|r|]
  {
    if s != [] && IsSpace(s[|s| - 1]) {
      RightTrimmed(s[..|s| - 1]);
    }
  }

  /** Trimming takes characters away, and a second time nothing. */
  lemma TrimTrimmed(s: string)
    ensures Trim(Trim(s)) == Trim(s)
    ensures forall c | c in Trim(s) :: c in s
  {
    var r := TrimRight(s);
    RightTrimmed(s);
    LeftTrimmed(r);
    var t := TrimLeft(r);
    assert t != [] ==> t[|t| - 1] == r[|r| - 1];
    assert TrimRight(t) == t;
  }

  lemma TrimTrailing(s: string, c: char)
    requires IsSpace(c)
    ensures Trim(s + [c]) == Trim(s)
  {
    assert (s + [c])[..|s|] == s;
  }

  // ------------------------------------------------------------------------- integers

  predicate AllDigits(s: string) {
    forall i | 0 <= i < |s| :: IsDigit(s[i])
  }

  /** A base-ten 64-bit integer with an optional sign. */
  function ParseInt(s: string): Option<int> {
    var negative := s != [] && s[0] == '-';
    var digits := if s != [] && (s[0] == '-' || s[0] == '+') then s[1..] else s;
    if digits == [] || !AllDigits(digits) then None
    else
      var n: int := if negative then 0 - Value(digits) else Value(digits);
      if MIN_INT64 <= n <= MAX_INT64 then Some(n) else None
  }

  lemma ParseShown(n: int)
    requires MIN_INT64 <= n <= MAX_INT64
    ensures ParseInt(Show(n)) == Some(n)
  {
    var m := if n < 0 then -n else n;
    DigitsValue(m);
    assert IsDigit(Digits(m)[0]);
    assert Show(n)[if n < 0 then 1 else 0..] == Digits(m);
  }

  /** Digits are read with their sign, if they have one, as long as the number fits 64 bits. */
  lemma SignedRead(digits: string)
    requires digits != [] && AllDigits(digits)
    ensures ParseInt(digits) == ParseInt(['+'] + digits) ==
            if Value(digits) < 0x8000_0000_0000_0000 then Some(Value(digits)) else None
    ensures ParseInt(['-'] + digits) ==
            if Value(digits) <= 0x8000_0000_0000_0000 then Some(0 - Value(digits)) else None
  {
    var plus, minus := ['+'] + digits, ['-'] + digits;
    assert plus[1..] == digits && minus[1..] == digits;
    assert IsDigit(digits[0]);
  }

  /** Nothing else is a number. */
  lemma OnlyDigitsRead(s: string)
    requires ParseInt(s).Some?
    ensures s != [] && (AllDigits(s) || (|s| > 1 && s[0] in ['-', '+'] && AllDigits(s[1..])))
  {
  }

  /** The printed form starts and ends with a digit or a sign and holds nothing else. */
  lemma ShownChars(n: int)
    ensures Show(n) != "" && forall i | 0 <= i < |Show(n)| :: IsDigit(Show(n)[i]) || Show(n)[i] == '-'
  {
  }
}
