/** Git tree objects: the bytes the exporter prints for the entries of a directory and the
    entries the importer reads from such bytes. */
module TreeCodec {
  import opened Basics

  type byte = x: int | 0 <= x < 256

  type Bytes = seq<byte>

  const NUL: byte := 0
  const SPACE: byte := 32

  datatype TreeEntry = TreeEntry(mode: Bytes, name: Bytes, hash: Bytes)

  datatype ParseError = InvalidFormat | InvalidEntry | TruncatedEntry

  datatype Result<+T> = Ok(value: T) | Err(error: ParseError)

  // --------------------------------------------------------------------- hexadecimal

  function HexDigit(d: nat): byte
    requires d < 16
  {
    if d < 10 then 48 + d else 87 + d
  }

  predicate IsHexDigit(c: byte) {
    48 <= c <= 57 || 65 <= c <= 70 || 97 <= c <= 102
  }

  predicate IsLowerHexDigit(c: byte) {
    48 <= c <= 57 || 97 <= c <= 102
  }

  function HexValue(c: byte): (d: nat)
    requires IsHexDigit(c)
    ensures d < 16 && (IsLowerHexDigit(c) ==> HexDigit(d) == c)
  {
    if c <= 57 then c - 48 else if c <= 70 then c - 55 else c - 87
  }

  function HexEncode(bs: Bytes): Bytes {
    if bs == [] then []
    else [HexDigit(bs[0] / 16), HexDigit(bs[0] % 16)] + HexEncode(bs[1..])
  }

  /** Reads pairs of digits up to the first that is not one; the exporter ignores the error. */
  function HexDecode(s: Bytes): Bytes {
    if |s| < 2 || !IsHexDigit(s[0]) || !IsHexDigit(s[1]) then []
    else [16 * HexValue(s[0]) + HexValue(s[1])] + HexDecode(s[2..])
  }

  lemma {:induction false} DecodeEncode(bs: Bytes)
    ensures HexDecode(HexEncode(bs)) == bs
    ensures |HexEncode(bs)| == 2 * |bs|
    ensures forall c | c in HexEncode(bs) :: IsLowerHexDigit(c)
  {
    if bs != [] {
      DecodeEncode(bs[1..]);
      assert HexEncode(bs)[2..] == HexEncode(bs[1..]);
    }
  }

  lemma {:induction false} EncodeDecode(s: Bytes)
    requires |s| % 2 == 0 && forall c | c in s :: IsLowerHexDigit(c)
    ensures HexEncode(HexDecode(s)) == s
    ensures 2 * |HexDecode(s)| == |s|
  {
    if s != [] {
      EncodeDecode(s[2..]);
      var a, b := s[0], s[1];
      assert IsLowerHexDigit(a) && IsLowerHexDigit(b);
      assert s == [a, b] + s[2..];
      assert HexDecode(s)[1..] == HexDecode(s[2..]);
      assert (16 * HexValue(a) + HexValue(b)) / 16 == HexValue(a);
      assert (16 * HexValue(a) + HexValue(b)) % 16 == HexValue(b);
    }
  }

  function Lowered(c: byte): byte {
    if 65 <= c <= 70 then c + 32 else c
  }

  function LoweredAll(s: Bytes): Bytes {
    if s == [] then [] else [Lowered(s[0])] + LoweredAll(s[1..])
  }

  /** Decoding takes all leading pairs of digits, capital or not, and nothing after them. */
  lemma {:induction false} DecodesLeadingPairs(digits: Bytes, rest: Bytes)
    requires |digits| % 2 == 0 && forall c | c in digits :: IsLowerHexDigit(Lowered(c))
    requires |rest| < 2 || !IsLowerHexDigit(Lowered(rest[0])) || !IsLowerHexDigit(Lowered(rest[1]))
    ensures HexEncode(HexDecode(digits + rest)) == LoweredAll(digits)
  {
    if digits == [] {
      assert digits + rest == rest;
    } else {
      var a, b, more := digits[0], digits[1], digits[2..];
      assert a in digits && b in digits && digits == [a, b] + more;
      assert (digits + rest)[2..] == more + rest;
      DecodesLeadingPairs(more, rest);
      PairRead(a, b, HexDecode(more + rest));
      PairLowered(a, b, more);
    }
  }

  lemma PairLowered(a: byte, b: byte, more: Bytes)
    ensures LoweredAll([a, b] + more) == [Lowered(a), Lowered(b)] + LoweredAll(more)
  {
    assert ([a, b] + more)[1..] == [b] + more && ([b] + more)[1..] == more;
  }

  lemma PairRead(a: byte, b: byte, rest: Bytes)
    requires IsHexDigit(a) && IsHexDigit(b)
    ensures HexEncode([16 * HexValue(a) + HexValue(b)] + rest) ==
            [Lowered(a), Lowered(b)] + HexEncode(rest)
  {
    var x := 16 * HexValue(a) + HexValue(b);
    assert x / 16 == HexValue(a) && x % 16 == HexValue(b);
    assert ([x] + rest)[1..] == rest;
  }

  // -------------------------------------------------------------------------- printing

  function PrintEntry(e: TreeEntry): Bytes {
    e.mode + [SPACE] + e.name + [NUL] + HexDecode(e.hash)
  }

  function Print(es: seq<TreeEntry>): Bytes {
    if es == [] then [] else Print(es[..|es| - 1]) + PrintEntry(es[|es| - 1])
  }

  method ExportTree(es: seq<TreeEntry>) returns (content: Bytes)
    ensures content == Print(es)
  {
    content := [];
    for i := 0 to |es|
      invariant content == Print(es[..i])
    {
      var entryLine := es[i].mode + [SPACE] + es[i].name + [NUL];
      content := content + entryLine;
      var hashBytes := HexDecode(es[i].hash);
      content := content + hashBytes;
      assert es[..i + 1][..i] == es[..i];
    }
    assert es[..|es|] == es;
  }

  // --------------------------------------------------------------------------- parsing

  /** One entry and the number of bytes it takes. */
  function ParseEntry(s: Bytes): (r: Result<(TreeEntry, nat)>)
    ensures r.Ok? ==> 0 < r.value.1 <= |s|
  {
    var nul := Index(s, NUL);
    if nul == |s| then Err(InvalidFormat)
    else
      var modeAndName := s[..nul];
      var space := Index(modeAndName, SPACE);
      if space == nul then Err(InvalidEntry)
      else if nul + 1 + 20 > |s| then Err(TruncatedEntry)
      else
        var e := TreeEntry(modeAndName[..space], modeAndName[space + 1..],
                           HexEncode(s[nul + 1..nul + 21]));
        Ok((e, nul + 21))
  }

  function Prepend(es: seq<TreeEntry>, r: Result<seq<TreeEntry>>): Result<seq<TreeEntry>> {
    match r
    case Ok(rest) => Ok(es + rest)
    case Err(e) => Err(e)
  }

  lemma PrependTwice(es: seq<TreeEntry>, e: TreeEntry, r: Result<seq<TreeEntry>>)
    ensures Prepend(es, Prepend([e], r)) == Prepend(es + [e], r)
  {
    if r.Ok? {
      assert es + ([e] + r.value) == es + [e] + r.value;
    }
  }

  lemma PrependNone(r: Result<seq<TreeEntry>>)
    ensures Prepend([], r) == r
  {
    if r.Ok? {
      assert [] + r.value == r.value;
    }
  }

  function Parse(s: Bytes): Result<seq<TreeEntry>> {
    if s == [] then Ok([])
    else
      match ParseEntry(s)
      case Err(e) => Err(e)
      case Ok((e, used)) => Prepend([e], Parse(s[used..]))
  }

  /** Reading on from an offset with the entries found before it. */
  ghost function Continue(content: Bytes, offset: nat, entries: seq<TreeEntry>):
    Result<seq<TreeEntry>>
    requires offset <= |content|
  {
    Prepend(entries, Parse(content[offset..]))
  }

  lemma ContinueStart(content: Bytes)
    ensures Continue(content, 0, []) == Parse(content)
  {
    assert content[0..] == content;
    PrependNone(Parse(content));
  }

  lemma ContinueNext(content: Bytes, offset: nat, entries: seq<TreeEntry>)
    requires offset < |content|
    ensures match ParseEntry(content[offset..])
            case Err(e) => Continue(content, offset, entries) == Err(e)
            case Ok((e, used)) =>
              Continue(content, offset, entries) == Continue(content, offset + used, entries + [e])
  {
    var r := ParseEntry(content[offset..]);
    if r.Ok? {
      var (e, used) := r.value;
      assert content[offset..][used..] == content[offset + used..];
      PrependTwice(entries, e, Parse(content[offset + used..]));
    }
  }

  lemma ContinueEnd(content: Bytes, entries: seq<TreeEntry>)
    ensures Continue(content, |content|, entries) == Ok(entries)
  {
    assert entries + [] == entries;
  }

  method ImportTree(content: Bytes) returns (r: Result<seq<TreeEntry>>)
    ensures r == Parse(content)
  {
    var entries: seq<TreeEntry> := [];
    var offset := 0;
    ContinueStart(content);
    while offset < |content|
      invariant 0 <= offset <= |content|
      invariant Parse(content) == Continue(content, offset, entries)
    {
      ContinueNext(content, offset, entries);
      var next := ImportEntry(content, offset);
      if next.Err? {
        return Err(next.error);
      }
      var (entry, used) := next.value;
      entries := entries + [entry];
      offset := offset + used;
    }
    ContinueEnd(content, entries);
    r := Ok(entries);
  }

  /** The body of the loop over the tree object. */
  method ImportEntry(content: Bytes, start: nat) returns (r: Result<(TreeEntry, nat)>)
    requires start < |content|
    ensures r == ParseEntry(content[start..])
  {
    ghost var s := content[start..];
    var offset := start;
    var nullIndex := Index(content[offset..], NUL);
    if nullIndex == |content| - offset {
      return Err(InvalidFormat);
    }
    var modeAndName := content[offset..offset + nullIndex];
    assert modeAndName == s[..nullIndex];
    var space := Index(modeAndName, SPACE);
    if space == |modeAndName| {
      return Err(InvalidEntry);
    }
    var mode, name := modeAndName[..space], modeAndName[space + 1..];
    offset := offset + nullIndex + 1;
    if offset + 20 > |content| {
      return Err(TruncatedEntry);
    }
    assert content[offset..offset + 20] == s[nullIndex + 1..nullIndex + 21];
    var sha := HexEncode(content[offset..offset + 20]);
    offset := offset + 20;
    r := Ok((TreeEntry(mode, name, sha), offset - start));
  }

  // ------------------------------------------------------------------------ round trips

  predicate IsHash(h: Bytes) {
    |h| == 40 && forall c | c in h :: IsLowerHexDigit(c)
  }

  predicate WellFormed(e: TreeEntry) {
    && SPACE !in e.mode && NUL !in e.mode
    && NUL !in e.name
    && IsHash(e.hash)
  }

  predicate AllWellFormed(es: seq<TreeEntry>) {
    forall e | e in es :: WellFormed(e)
  }

  lemma ParsePrintedEntry(e: TreeEntry, rest: Bytes)
    requires WellFormed(e)
    ensures ParseEntry(PrintEntry(e) + rest) == Ok((e, |PrintEntry(e)|))
  {
    var raw := HexDecode(e.hash);
    EncodeDecode(e.hash);
    var line := e.mode + [SPACE] + e.name;
    var s := PrintEntry(e) + rest;
    assert s == line + [NUL] + (raw + rest);
    IndexAfter(line, NUL, raw + rest);
    assert s[..|line|] == line;
    IndexAfter(e.mode, SPACE, e.name);
    assert line[..|e.mode|] == e.mode && line[|e.mode| + 1..] == e.name;
    assert s[|line| + 1..|line| + 21] == raw;
  }

  lemma PrintLast(es: seq<TreeEntry>, e: TreeEntry)
    ensures Print(es + [e]) == Print(es) + PrintEntry(e)
  {
    assert (es + [e])[..|es|] == es;
  }

  lemma Assoc(a: Bytes, b: Bytes, c: Bytes)
    ensures a + b + c == a + (b + c)
  {
  }

  lemma {:induction false} PrintJoin(e: TreeEntry, es: seq<TreeEntry>)
    ensures Print([e] + es) == PrintEntry(e) + Print(es)
  {
    if es == [] {
      assert [e] + es == [] + [e];
      PrintLast([], e);
    } else {
      var init, last := es[..|es| - 1], es[|es| - 1];
      assert es == init + [last] && [e] + es == [e] + init + [last];
      PrintJoin(e, init);
      PrintLast([e] + init, last);
      PrintLast(init, last);
      Assoc(PrintEntry(e), Print(init), PrintEntry(last));
    }
  }

  lemma PrintFirst(es: seq<TreeEntry>)
    requires es != []
    ensures Print(es) == PrintEntry(es[0]) + Print(es[1..])
  {
    assert es == [es[0]] + es[1..];
    PrintJoin(es[0], es[1..]);
  }

  lemma {:induction false} ParsePrinted(es: seq<TreeEntry>)
    requires AllWellFormed(es)
    ensures Parse(Print(es)) == Ok(es)
  {
    if es != [] {
      var e, others := es[0], es[1..];
      assert es == [e] + others;
      PrintFirst(es);
      ParsePrinted(others);
      ParsePrintedEntry(e, Print(others));
      ParseNext(PrintEntry(e), Print(others), e);
    }
  }

  lemma ParseNext(first: Bytes, rest: Bytes, e: TreeEntry)
    requires first != [] && ParseEntry(first + rest) == Ok((e, |first|))
    ensures Parse(first + rest) == Prepend([e], Parse(rest))
  {
    assert (first + rest)[|first|..] == rest;
  }

  lemma ParsedWellFormed(s: Bytes)
    requires ParseEntry(s).Ok?
    ensures WellFormed(ParseEntry(s).value.0)
  {
    var nul := Index(s, NUL);
    IndexIsFirst(s, NUL);
    IndexIsFirst(s[..nul], SPACE);
    DecodeEncode(s[nul + 1..nul + 21]);
  }

  /** Mode, space, name and NUL are the line with its NUL. */
  lemma LinePrints(line: Bytes, space: nat, raw: Bytes)
    requires space < |line| && line[space] == SPACE && |raw| == 20
    ensures PrintEntry(TreeEntry(line[..space], line[space + 1..], HexEncode(raw))) ==
            line + [NUL] + raw
  {
    DecodeEncode(raw);
    Rejoin(line, space, |line|);
    assert line[..|line|] == line && line[space + 1..|line|] == line[space + 1..];
  }

  lemma ParsedPrints(s: Bytes)
    requires ParseEntry(s).Ok?
    ensures PrintEntry(ParseEntry(s).value.0) == s[..ParseEntry(s).value.1]
  {
    var nul := Index(s, NUL);
    var line := s[..nul];
    IndexIsFirst(s, NUL);
    IndexIsFirst(line, SPACE);
    LinePrints(line, Index(line, SPACE), s[nul + 1..nul + 21]);
    Rejoin(s, nul, nul + 21);
  }

  lemma Rejoin(s: Bytes, i: nat, end: nat)
    requires i < end <= |s|
    ensures s[..end] == s[..i] + [s[i]] + s[i + 1..end]
  {
  }

  /** Every byte string the parser accepts is what its entries print to, and the entries are well
      formed. */
  lemma {:induction false} PrintParsed(s: Bytes)
    requires Parse(s).Ok?
    ensures Print(Parse(s).value) == s
    ensures AllWellFormed(Parse(s).value)
  {
    if s != [] {
      var (e, used) := ParseEntry(s).value;
      var es := Parse(s).value;
      ParsedWellFormed(s);
      ParsedPrints(s);
      PrintParsed(s[used..]);
      assert es == [e] + Parse(s[used..]).value;
      PrintFirst(es);
      assert es[1..] == Parse(s[used..]).value;
    }
  }

  /** Printed entries are read back as they were, if and only if all of them are well formed. */
  lemma RoundTripIff(es: seq<TreeEntry>)
    ensures Parse(Print(es)) == Ok(es) <==> AllWellFormed(es)
  {
    if AllWellFormed(es) {
      ParsePrinted(es);
    } else if Parse(Print(es)) == Ok(es) {
      PrintParsed(Print(es));
    }
  }

  // ---------------------------------------------------------------------------- errors

  /** Why an entry cannot be read: no NUL at all, no space before the first NUL, or fewer than twenty
      bytes after it; the first of these that applies. */
  lemma EntryErrors(s: Bytes)
    ensures ParseEntry(s) == Err(InvalidFormat) <==> NUL !in s
    ensures forall line, rest | s == line + [NUL] + rest && NUL !in line ::
              && (ParseEntry(s) == Err(InvalidEntry) <==> SPACE !in line)
              && (ParseEntry(s) == Err(TruncatedEntry) <==> SPACE in line && |rest| < 20)
  {
    IndexIsFirst(s, NUL);
    var nul := Index(s, NUL);
    if nul < |s| {
      IndexIsFirst(s[..nul], SPACE);
      assert s[nul] in s;
    } else {
      assert s[..nul] == s;
    }
    forall line, rest | s == line + [NUL] + rest && NUL !in line
      ensures nul == |line| && s[..nul] == line && |s| == |line| + 1 + |rest|
    {
      IndexAfter(line, NUL, rest);
    }
    if nul < |s| {
      SpaceFound(s[..nul]);
    }
  }

  lemma SpaceFound(line: Bytes)
    ensures Index(line, SPACE) == |line| <==> SPACE !in line
  {
    IndexIsFirst(line, SPACE);
    assert line[..|line|] == line;
  }

  lemma {:induction false} ParseAfter(es: seq<TreeEntry>, rest: Bytes)
    requires AllWellFormed(es)
    ensures Parse(Print(es) + rest) == Prepend(es, Parse(rest))
  {
    if es == [] {
      assert Print(es) + rest == rest;
      PrependNone(Parse(rest));
    } else {
      var e, others := es[0], es[1..];
      assert es == [e] + others;
      PrintFirst(es);
      Assoc(PrintEntry(e), Print(others), rest);
      ParsePrintedEntry(e, Print(others) + rest);
      ParseNext(PrintEntry(e), Print(others) + rest, e);
      ParseAfter(others, rest);
      PrependJoin(e, others, Parse(rest));
    }
  }

  lemma PrependJoin(e: TreeEntry, es: seq<TreeEntry>, r: Result<seq<TreeEntry>>)
    ensures Prepend([e], Prepend(es, r)) == Prepend([e] + es, r)
  {
    if r.Ok? {
      assert [e] + (es + r.value) == [e] + es + r.value;
    }
  }

  /** The bytes print these entries, which are well formed, and go on with something that is not an
      entry. */
  predicate BreaksAfter(s: Bytes, es: seq<TreeEntry>, rest: Bytes, error: ParseError) {
    AllWellFormed(es) && s == Print(es) + rest && rest != [] && ParseEntry(rest) == Err(error)
  }

  ghost predicate BreaksOff(s: Bytes, error: ParseError) {
    exists es, rest :: BreaksAfter(s, es, rest, error)
  }

  lemma BreaksLater(s: Bytes, es: seq<TreeEntry>, rest: Bytes, error: ParseError)
    requires ParseEntry(s).Ok?
    requires BreaksAfter(s[ParseEntry(s).value.1..], es, rest, error)
    ensures BreaksAfter(s, [ParseEntry(s).value.0] + es, rest, error)
  {
    var (e, used) := ParseEntry(s).value;
    ParsedWellFormed(s);
    ParsedPrints(s);
    PrintJoin(e, es);
    Assoc(PrintEntry(e), Print(es), rest);
    assert s == s[..used] + s[used..];
  }

  lemma {:induction false} FailureBreaksOff(s: Bytes, error: ParseError)
    requires Parse(s) == Err(error)
    ensures BreaksOff(s, error)
  {
    if ParseEntry(s).Err? {
      assert [] + s == s;
      assert BreaksAfter(s, [], s, error);
    } else {
      var rest := s[ParseEntry(s).value.1..];
      FailureBreaksOff(rest, error);
      var es, end :| BreaksAfter(rest, es, end, error);
      BreaksLater(s, es, end, error);
    }
  }

  /** Reading fails with an error if and only if the bytes print well-formed entries and then go on
      with something that fails with that error. */
  lemma ParseFailsIff(s: Bytes, error: ParseError)
    ensures Parse(s) == Err(error) <==> BreaksOff(s, error)
  {
    if Parse(s) == Err(error) {
      FailureBreaksOff(s, error);
    }
    if BreaksOff(s, error) {
      var es, rest :| BreaksAfter(s, es, rest, error);
      ParseAfter(es, rest);
    }
  }
}
