/**
 Byte ranges of file downloads: the Range header and its resolution against the file size (section
 14.1.2 of RFC 9110).
 */
module FileRange {
  import opened Wrappers

  datatype ParsedRange = Bounded(start: nat, end: nat) | Open(start: nat) | Suffix(suffix: nat)

  datatype Resolved = Resolved(start: int, end: int)

  // ---------------------------------------------------------------- digits

  predicate IsDigit(c: char) {
    '0' <= c <= '9'
  }

  predicate AllDigits(s: string) {
    forall c :: c in s ==> IsDigit(c)
  }

  function Value(s: string): nat
    requires AllDigits(s)
  {
    if s == "" then 0
    else
      var last := s[|s| - 1];
      assert last in s && IsDigit(last);
      Value(s[..|s| - 1]) * 10 + (last as int - '0' as int)
  }

  function Digit(n: nat): char
    requires n < 10
  {
    ('0' as int + n) as char
  }

  function Decimal(n: nat): (s: string)
    ensures s != "" && AllDigits(s)
  {
    if n < 10 then [Digit(n)] else Decimal(n / 10) + [Digit(n % 10)]
  }

  lemma {:induction false} ValueOfDecimal(n: nat)
    ensures Value(Decimal(n)) == n
  {
    var s := Decimal(n);
    if n < 10 {
      assert s[..0] == "" && Value(s[..|s| - 1]) == 0;
    } else {
      ValueOfDecimal(n / 10);
      assert s[..|s| - 1] == Decimal(n / 10);
    }
  }

  /** Digit strings are read in base ten, and leading zeros do not matter. */
  lemma {:induction false} ValueIsPositional(s: string, c: char)
    requires AllDigits(s) && IsDigit(c)
    ensures Value(s + [c]) == Value(s) * 10 + (c as int - '0' as int)
    ensures Value("0" + s) == Value(s)
  {
    assert (s + [c])[..|s|] == s;
    if s != "" {
      var k := |s| - 1;
      assert ("0" + s)[..|s|] == "0" + s[..k] && s[k] in s;
      ValueIsPositional(s[..k], s[k]);
    }
  }

  // ---------------------------------------------------------------- the header

  const UNIT := "bytes="

  /** The position of the first hyphen, or the length. */
  function Hyphen(s: string): (i: nat)
    ensures i <= |s| && '-' !in s[..i] && (i < |s| ==> s[i] == '-')
  {
    if s == "" || s[0] == '-' then 0
    else
      assert forall j: nat :: j < |s| ==> s[..j + 1] == [s[0]] + s[1..][..j];
      1 + Hyphen(s[1..])
  }

  function RangeOf(first: string, last: string): Option<ParsedRange>
    requires AllDigits(first) && AllDigits(last)
  {
    if first != "" && last != "" then Some(Bounded(Value(first), Value(last)))
    else if first != "" then Some(Open(Value(first)))
    else if last != "" then Some(Suffix(Value(last)))
    else None
  }

  function ParseRangeHeader(header: string): Option<ParsedRange> {
    if !(UNIT <= header) then None
    else
      var spec := header[|UNIT|..];
      var i := Hyphen(spec);
      if i == |spec| || !AllDigits(spec[..i]) || !AllDigits(spec[i + 1..]) then None
      else RangeOf(spec[..i], spec[i + 1..])
  }

  function Print(r: ParsedRange): string {
    match r
    case Bounded(start, end) => UNIT + (Decimal(start) + ("-" + Decimal(end)))
    case Open(start) => UNIT + (Decimal(start) + ("-" + ""))
    case Suffix(n) => UNIT + ("" + ("-" + Decimal(n)))
  }

  lemma {:induction false} HyphenAt(s: string, k: nat)
    requires k < |s| && s[k] == '-' && '-' !in s[..k]
    ensures Hyphen(s) == k
  {
  }

  lemma ParseSplit(first: string, last: string)
    requires AllDigits(first) && AllDigits(last)
    ensures ParseRangeHeader(UNIT + (first + ("-" + last))) == RangeOf(first, last)
  {
    var header, spec := UNIT + (first + ("-" + last)), first + ("-" + last);
    assert header[..|UNIT|] == UNIT && header[|UNIT|..] == spec;
    assert spec[|first|] == '-' && spec[..|first|] == first && spec[|first| + 1..] == last;
    HyphenAt(spec, |first|);
  }

  /** The unit, then two strings of the digits 0 to 9 around a hyphen. */
  predicate IsHeader(header: string, first: string, last: string) {
    && (forall c :: c in first ==> '0' <= c <= '9') && (forall c :: c in last ==> '0' <= c <= '9')
    && header == "bytes=" + (first + ("-" + last))
  }

  /** Both numbers, the first alone or the last alone; the empty string is no number. */
  predicate Spells(first: string, last: string, r: ParsedRange)
    requires AllDigits(first) && AllDigits(last)
  {
    match r
    case Bounded(start, end) => first != "" && last != "" && Value(first) == start && Value(last) == end
    case Open(start) => first != "" && last == "" && Value(first) == start
    case Suffix(n) => first == "" && last != "" && Value(last) == n
  }

  ghost predicate IsHeaderOf(header: string, r: ParsedRange) {
    exists first, last :: IsHeader(header, first, last) && Spells(first, last, r)
  }

  lemma HeaderIsParsed(header: string, first: string, last: string)
    requires IsHeader(header, first, last)
    ensures ParseRangeHeader(header) == RangeOf(first, last)
  {
    assert AllDigits(first) && AllDigits(last);
    ParseSplit(first, last);
  }

  lemma DigitsMakeAHeader(first: string, last: string)
    requires AllDigits(first) && AllDigits(last)
    ensures IsHeader(UNIT + (first + ("-" + last)), first, last)
  {
  }

  lemma RangeIsSpelled(first: string, last: string)
    requires AllDigits(first) && AllDigits(last)
    ensures forall r :: RangeOf(first, last) == Some(r) <==> Spells(first, last, r)
  {
  }

  lemma HeaderIsSplit(header: string)
    requires ParseRangeHeader(header).Some?
    ensures IsHeaderOf(header, ParseRangeHeader(header).value)
  {
    var spec := header[|UNIT|..];
    var i := Hyphen(spec);
    var first, last := spec[..i], spec[i + 1..];
    assert header == UNIT + spec && spec == first + ("-" + last);
    DigitsMakeAHeader(first, last);
    RangeIsSpelled(first, last);
  }

  /** The accepted headers are exactly those whose two digit strings are not both empty. */
  lemma ParsedExactly(header: string, r: ParsedRange)
    ensures ParseRangeHeader(header) == Some(r) <==> IsHeaderOf(header, r)
  {
    if IsHeaderOf(header, r) {
      var first, last :| IsHeader(header, first, last) && Spells(first, last, r);
      HeaderIsParsed(header, first, last);
      RangeIsSpelled(first, last);
    } else if ParseRangeHeader(header).Some? {
      HeaderIsSplit(header);
    }
  }

  lemma ParsePrint(r: ParsedRange)
    ensures ParseRangeHeader(Print(r)) == Some(r)
  {
    match r
    case Bounded(start, end) =>
      ValueOfDecimal(start);
      ValueOfDecimal(end);
      ParseSplit(Decimal(start), Decimal(end));
    case Open(start) =>
      ValueOfDecimal(start);
      ParseSplit(Decimal(start), "");
    case Suffix(n) =>
      ValueOfDecimal(n);
      ParseSplit("", Decimal(n));
  }

  // ---------------------------------------------------------------- resolution

  function Min(a: int, b: int): int {
    if a < b then a else b
  }

  function Max(a: int, b: int): int {
    if a < b then b else a
  }

  function Resolve(parsed: ParsedRange, totalSize: nat): Option<Resolved> {
    var start := match parsed
      case Bounded(s, _) => s
      case Open(s) => s
      case Suffix(n) => Max(0, totalSize - n);
    var end := if parsed.Bounded? then Min(parsed.end, totalSize - 1) else totalSize - 1;
    if start > end || start >= totalSize then None else Some(Resolved(start, end))
  }

  /** The header asks for byte i of a file of the given size. */
  predicate Requested(parsed: ParsedRange, totalSize: nat, i: int) {
    match parsed
    case Bounded(s, e) => s <= i <= e
    case Open(s) => s <= i
    case Suffix(n) => totalSize - n <= i
  }

  /** Resolution yields exactly the requested bytes that exist, and nothing exactly when there are none. */
  lemma ResolvedExactly(parsed: ParsedRange, totalSize: nat)
    ensures var r := Resolve(parsed, totalSize);
      && (r.None? <==> forall i :: 0 <= i < totalSize ==> !Requested(parsed, totalSize, i))
      && (r.Some? ==>
            forall i :: r.value.start <= i <= r.value.end <==> 0 <= i < totalSize && Requested(parsed, totalSize, i))
  {
    var r := Resolve(parsed, totalSize);
    if r.Some? {
      assert Requested(parsed, totalSize, r.value.start);
    }
  }

  method ResolveRange(parsed: ParsedRange, totalSize: nat) returns (r: Option<Resolved>)
    ensures r == Resolve(parsed, totalSize)
    ensures r.None? <==> forall i :: 0 <= i < totalSize ==> !Requested(parsed, totalSize, i)
    ensures r.Some? ==>
      forall i :: r.value.start <= i <= r.value.end <==> 0 <= i < totalSize && Requested(parsed, totalSize, i)
  {
    ResolvedExactly(parsed, totalSize);
    var start, end: int;
    match parsed {
      case Bounded(s, e) =>
        start := s;
        end := Min(e, totalSize - 1);
      case Open(s) =>
        start := s;
        end := totalSize - 1;
      case Suffix(n) =>
        start := Max(0, totalSize - n);
        end := totalSize - 1;
    }
    if start > end || start >= totalSize {
      return None;
    }
    return Some(Resolved(start, end));
  }

  // ---------------------------------------------------------------- downloading in chunks

  /** The body of a partial response, or nothing for an unsatisfiable or malformed range. */
  function Download<T>(file: seq<T>, header: string): Option<seq<T>> {
    var parsed := ParseRangeHeader(header);
    if parsed.None? then None
    else
      var r := Resolve(parsed.value, |file|);
      if r.None? then None
      else
        assert 0 <= r.value.start <= r.value.end < |file|;
        Some(file[r.value.start..r.value.end + 1])
  }

  /** Fetch `c` bytes at a time from byte k of a file of the given size on, until a fetch yields nothing. */
  function Collect<T>(fetch: nat -> Option<seq<T>>, size: nat, c: nat, k: nat): seq<T>
    requires c >= 1
    decreases if k <= size then size - k + 1 else 0
  {
    if k > size || fetch(k).None? then [] else fetch(k).value + Collect(fetch, size, c, k + c)
  }

  /** The client that requests bytes 0 to c - 1, c to 2c - 1 and so on until the range is unsatisfiable. */
  function DownloadChunks<T>(file: seq<T>, c: nat): seq<T>
    requires c >= 1
  {
    Collect((k: nat) => Download(file, Print(Bounded(k, k + c - 1))), |file|, c, 0)
  }

  lemma ChunkIsSlice<T>(file: seq<T>, c: nat, k: nat)
    requires c >= 1
    ensures Download(file, Print(Bounded(k, k + c - 1))) ==
      if k >= |file| then None else Some(file[k..Min(k + c, |file|)])
  {
    ParsePrint(Bounded(k, k + c - 1));
  }

  lemma {:induction false} CollectedIsSuffix<T>(file: seq<T>, fetch: nat -> Option<seq<T>>, c: nat, k: nat)
    requires c >= 1 && k <= |file|
    requires forall j: nat :: fetch(j) == if j >= |file| then None else Some(file[j..Min(j + c, |file|)])
    ensures Collect(fetch, |file|, c, k) == file[k..]
    decreases |file| - k
  {
    if k + c <= |file| {
      CollectedIsSuffix(file, fetch, c, k + c);
      assert file[k..] == file[k..k + c] + file[k + c..];
    } else if k < |file| {
      assert Collect(fetch, |file|, c, k + c) == [];
      assert file[k..Min(k + c, |file|)] + [] == file[k..];
    }
  }

  /** Consecutive ranges of any chunk size put the whole file together. */
  lemma ChunksAreWhole<T>(file: seq<T>, c: nat)
    requires c >= 1
    ensures DownloadChunks(file, c) == file
  {
    var fetch := (k: nat) => Download(file, Print(Bounded(k, k + c - 1)));
    forall j: nat
      ensures fetch(j) == if j >= |file| then None else Some(file[j..Min(j + c, |file|)])
    {
      ChunkIsSlice(file, c, j);
    }
    CollectedIsSuffix(file, fetch, c, 0);
  }
}
