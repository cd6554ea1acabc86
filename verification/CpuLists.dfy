/** The kernel's CPU list format, as in "0-7,16-23", and its parser. */
module CpuLists {
  import opened Wrappers

  /** A `usize` is 64 bits wide. */
  const USIZE_RANGE: nat := 0x1_0000_0000_0000_0000

  datatype CpuListError = InvalidRange | InvalidNumber

  // ----- Splitting and joining --------------------------------------------

  /** The pieces of `s` between separators: one more than there are separators. */
  function Split(s: string, separator: char): (pieces: seq<string>)
    ensures |pieces| > 0
  {
    if s == "" then [""]
    else if s[0] == separator then [""] + Split(s[1..], separator)
    else
      var rest := Split(s[1..], separator);
      [[s[0]] + rest[0]] + rest[1..]
  }

  function Join(pieces: seq<string>, separator: char): string
    requires |pieces| > 0
  {
    if |pieces| == 1 then pieces[0] else pieces[0] + [separator] + Join(pieces[1..], separator)
  }

  lemma {:induction false} SplitOne(s: string, separator: char)
    requires separator !in s
    ensures Split(s, separator) == [s]
  {
    if s != "" {
      assert s == [s[0]] + s[1..];
      SplitOne(s[1..], separator);
    }
  }

  lemma {:induction false} SplitFirst(piece: string, rest: string, separator: char)
    requires separator !in piece
    ensures Split(piece + [separator] + rest, separator) == [piece] + Split(rest, separator)
  {
    var s := piece + [separator] + rest;
    if piece == "" {
      assert s[1..] == rest;
    } else {
      assert s[1..] == piece[1..] + [separator] + rest;
      assert piece == [piece[0]] + piece[1..];
      SplitFirst(piece[1..], rest, separator);
      assert Split(s, separator) == [[s[0]] + piece[1..]] + Split(rest, separator);
    }
  }

  lemma {:induction false} SplitUndoesJoin(pieces: seq<string>, separator: char)
    requires |pieces| > 0
    requires forall piece | piece in pieces :: separator !in piece
    ensures Split(Join(pieces, separator), separator) == pieces
  {
    if |pieces| == 1 {
      SplitOne(pieces[0], separator);
    } else {
      SplitUndoesJoin(pieces[1..], separator);
      SplitFirst(pieces[0], Join(pieces[1..], separator), separator);
    }
  }

  /** Splitting loses nothing and leaves no separator: it is the only such list of pieces. */
  lemma {:induction false} JoinUndoesSplit(s: string, separator: char)
    ensures Join(Split(s, separator), separator) == s
    ensures forall piece | piece in Split(s, separator) :: separator !in piece
  {
    if s != "" {
      JoinUndoesSplit(s[1..], separator);
      var rest := Split(s[1..], separator);
      var pieces := Split(s, separator);
      if s[0] == separator {
        assert pieces[1..] == rest;
      } else {
        assert pieces[1..] == rest[1..];
      }
    }
  }

  // ----- Decimal numbers --------------------------------------------------

  predicate IsDigit(c: char) { '0' <= c <= '9' }

  predicate AllDigits(s: string) {
    forall i | 0 <= i < |s| :: IsDigit(s[i])
  }

  function ValueOf(digits: string): nat
    requires AllDigits(digits)
  {
    if digits == "" then 0
    else
      var last := |digits| - 1;
      10 * ValueOf(digits[..last]) + (digits[last] as int - '0' as int)
  }

  /** A number as `usize` parses it: an optional plus sign, then digits, and no overflow. */
  function ParseNumber(s: string): Option<nat> {
    var digits := if s != "" && s[0] == '+' then s[1..] else s;
    if digits != "" && AllDigits(digits) && ValueOf(digits) < USIZE_RANGE
    then Some(ValueOf(digits))
    else None
  }

  function PrintNumber(n: nat): (digits: string)
    ensures digits != "" && AllDigits(digits)
  {
    var last := [('0' as int + n % 10) as char];
    if n < 10 then last else PrintNumber(n / 10) + last
  }

  lemma {:induction false} ValueOfPrinted(n: nat)
    ensures ValueOf(PrintNumber(n)) == n
  {
    var digits := PrintNumber(n);
    if n < 10 {
      assert digits[..0] == "";
    } else {
      ValueOfPrinted(n / 10);
      assert digits[..|digits| - 1] == PrintNumber(n / 10);
    }
  }

  lemma PrintedNumberParses(n: nat)
    requires n < USIZE_RANGE
    ensures ParseNumber(PrintNumber(n)) == Some(n)
    ensures ',' !in PrintNumber(n) && '-' !in PrintNumber(n)
  {
    ValueOfPrinted(n);
    assert IsDigit(PrintNumber(n)[0]);
  }

  function Zeros(n: nat): string {
    seq(n, _ => '0')
  }

  /** `s` is an optional plus sign, leading zeros, and the number as it is printed. */
  ghost predicate Spells(s: string, n: nat) {
    exists z: nat :: s == Zeros(z) + PrintNumber(n) || s == "+" + (Zeros(z) + PrintNumber(n))
  }

  /** Every digit string is leading zeros and the printed form of its value. */
  lemma {:induction false} DigitsSpellTheirValue(digits: string) returns (z: nat)
    requires digits != "" && AllDigits(digits)
    ensures digits == Zeros(z) + PrintNumber(ValueOf(digits))
  {
    var last := |digits| - 1;
    var init, c := digits[..last], digits[last];
    assert digits == init + [c];
    if last == 0 {
      assert ValueOf(init) == 0;
      z := 0;
    } else {
      z := DigitsSpellTheirValue(init);
      var v := ValueOf(init);
      if v == 0 {
        assert PrintNumber(0) == "0";
        assert Zeros(z) + "0" == Zeros(z + 1);
        z := z + 1;
      } else {
        assert PrintNumber(ValueOf(digits)) == PrintNumber(v) + [c];
      }
    }
  }

  lemma {:induction false} LeadingZerosDoNotCount(z: nat, digits: string)
    requires AllDigits(digits)
    ensures AllDigits(Zeros(z) + digits) && ValueOf(Zeros(z) + digits) == ValueOf(digits)
    decreases |digits|, z
  {
    var all := Zeros(z) + digits;
    if digits != "" {
      var last := |digits| - 1;
      assert all[..|all| - 1] == Zeros(z) + digits[..last];
      LeadingZerosDoNotCount(z, digits[..last]);
    } else if z > 0 {
      assert all[..|all| - 1] == Zeros(z - 1) + "";
      LeadingZerosDoNotCount(z - 1, "");
    } else {
      assert all == "";
    }
  }

  /** Exactly the spellings of numbers below 2^64 are accepted, and as the number they spell. */
  lemma ParseNumberIffSpelled(s: string, n: nat)
    ensures ParseNumber(s) == Some(n) <==> n < 0x1_0000_0000_0000_0000 && Spells(s, n)
  {
    if ParseNumber(s) == Some(n) {
      var digits := if s != "" && s[0] == '+' then s[1..] else s;
      var z := DigitsSpellTheirValue(digits);
      assert s == digits || s == "+" + digits;
    }
    if n < USIZE_RANGE && Spells(s, n) {
      var z: nat :| s == Zeros(z) + PrintNumber(n) || s == "+" + (Zeros(z) + PrintNumber(n));
      var digits := Zeros(z) + PrintNumber(n);
      LeadingZerosDoNotCount(z, PrintNumber(n));
      ValueOfPrinted(n);
      assert IsDigit(digits[0]);
      assert ("+" + digits)[1..] == digits;
    }
  }

  // ----- The parser -------------------------------------------------------

  /** The numbers from `first` to `last`, both included. */
  function Interval(first: nat, last: nat): (r: seq<nat>)
    ensures forall c :: c in r <==> first <= c <= last
    decreases last + 1 - first
  {
    if first > last then [] else [first] + Interval(first + 1, last)
  }

  /** What one comma-separated part contributes. */
  function ReadPart(part: string): Result<seq<nat>, CpuListError> {
    if '-' in part then
      var ends := Split(part, '-');
      if |ends| != 2 then Ok([])
      else if ParseNumber(ends[0]).None? || ParseNumber(ends[1]).None? then Err(InvalidRange)
      else Ok(Interval(ParseNumber(ends[0]).value, ParseNumber(ends[1]).value))
    else if ParseNumber(part).None? then Err(InvalidNumber)
    else Ok([ParseNumber(part).value])
  }

  /** Everything from both, in order, or the first error. */
  function Then(first: Result<seq<nat>, CpuListError>, second: Result<seq<nat>, CpuListError>): Result<seq<nat>, CpuListError> {
    if first.Err? then first
    else if second.Err? then second
    else Ok(first.value + second.value)
  }

  function ReadParts(parts: seq<string>): Result<seq<nat>, CpuListError> {
    if parts == [] then Ok([]) else Then(ReadPart(parts[0]), ReadParts(parts[1..]))
  }

  function ReadList(cpulist: string): Result<seq<nat>, CpuListError> {
    ReadParts(Split(cpulist, ','))
  }

  lemma {:induction false} ReadConcat(a: seq<string>, b: seq<string>)
    ensures ReadParts(a + b) == Then(ReadParts(a), ReadParts(b))
  {
    if a == [] {
      assert a + b == b;
      assert ReadParts(b).Ok? ==> [] + ReadParts(b).value == ReadParts(b).value;
    } else {
      assert (a + b)[1..] == a[1..] + b;
      ReadConcat(a[1..], b);
      ThenIsAssociative(ReadPart(a[0]), ReadParts(a[1..]), ReadParts(b));
    }
  }

  lemma ThenIsAssociative(a: Result<seq<nat>, CpuListError>, b: Result<seq<nat>, CpuListError>, c: Result<seq<nat>, CpuListError>)
    ensures Then(a, Then(b, c)) == Then(Then(a, b), c)
  {
    if a.Ok? && b.Ok? && c.Ok? {
      assert a.value + (b.value + c.value) == a.value + b.value + c.value;
    }
  }

  lemma ThenNothing(a: Result<seq<nat>, CpuListError>)
    ensures Then(a, Ok([])) == a
  {
    if a.Ok? {
      assert a.value + [] == a.value;
    }
  }

  lemma ReadOne(part: string)
    ensures ReadParts([part]) == ReadPart(part)
  {
    assert [part][1..] == [];
    ThenNothing(ReadPart(part));
  }

  lemma ReadNext(parts: seq<string>, i: nat)
    requires i < |parts|
    ensures ReadParts(parts[..i + 1]) == Then(ReadParts(parts[..i]), ReadPart(parts[i]))
  {
    assert parts[..i + 1] == parts[..i] + [parts[i]];
    ReadConcat(parts[..i], [parts[i]]);
    ReadOne(parts[i]);
  }

  /** An error in the first parts is the error of the list. */
  lemma ReadStopsAtError(parts: seq<string>, i: nat)
    requires i <= |parts| && ReadParts(parts[..i]).Err?
    ensures ReadParts(parts) == ReadParts(parts[..i])
  {
    assert parts == parts[..i] + parts[i..];
    ReadConcat(parts[..i], parts[i..]);
  }

  lemma {:induction false} IntervalGrows(first: nat, last: nat)
    requires first <= last + 1
    ensures Interval(first, last + 1) == Interval(first, last) + [last + 1]
    decreases last + 1 - first
  {
    if first <= last {
      IntervalGrows(first + 1, last);
    } else {
      assert Interval(first, last + 1) == [first] + Interval(first + 1, last + 1);
    }
  }

  /** Every number from `start` to `end` appended to `cpus`. */
  method PushRange(cpus: seq<nat>, start: nat, end: nat) returns (r: seq<nat>)
    ensures r == cpus + Interval(start, end)
  {
    r := cpus;
    if start > end {
      return;
    }
    r := r + [start];
    assert Interval(start, start) == [start];
    for cpu := start to end
      invariant r == cpus + Interval(start, cpu)
    {
      IntervalGrows(start, cpu);
      r := r + [cpu + 1];
    }
  }

  method ParseCpuList(cpulist: string) returns (r: Result<seq<nat>, CpuListError>)
    ensures r == ReadList(cpulist)
  {
    var cpus := [];
    var parts := Split(cpulist, ',');
    for i := 0 to |parts|
      invariant ReadParts(parts[..i]) == Ok(cpus)
    {
      var part := parts[i];
      ReadNext(parts, i);
      if ReadPart(part).Err? {
        ReadStopsAtError(parts, i + 1);
      }
      if '-' in part {
        var range := Split(part, '-');
        if |range| == 2 {
          var start := ParseNumber(range[0]);
          if start.None? {
            return Err(InvalidRange);
          }
          var end := ParseNumber(range[1]);
          if end.None? {
            return Err(InvalidRange);
          }
          cpus := PushRange(cpus, start.value, end.value);
        } else {
          ThenNothing(Ok(cpus));
        }
      } else {
        var cpu := ParseNumber(part);
        if cpu.None? {
          return Err(InvalidNumber);
        }
        cpus := cpus + [cpu.value];
      }
    }
    assert parts[..|parts|] == parts;
    r := Ok(cpus);
  }

  // ----- Round trips ------------------------------------------------------

  datatype Item = Single(cpu: nat) | Range(first: nat, last: nat)

  function PrintItem(item: Item): string {
    match item
    case Single(cpu) => PrintNumber(cpu)
    case Range(first, last) => Join([PrintNumber(first), PrintNumber(last)], '-')
  }

  function Printed(items: seq<Item>): (pieces: seq<string>)
    ensures |pieces| == |items|
  {
    if items == [] then [] else [PrintItem(items[0])] + Printed(items[1..])
  }

  function Print(items: seq<Item>): string
    requires |items| > 0
  {
    Join(Printed(items), ',')
  }

  function ExpandItem(item: Item): seq<nat> {
    match item
    case Single(cpu) => [cpu]
    case Range(first, last) => Interval(first, last)
  }

  function Expand(items: seq<Item>): seq<nat> {
    if items == [] then [] else ExpandItem(items[0]) + Expand(items[1..])
  }

  predicate Fits(item: Item) {
    match item
    case Single(cpu) => cpu < USIZE_RANGE
    case Range(first, last) => first < USIZE_RANGE && last < USIZE_RANGE
  }

  lemma ItemRoundTrip(item: Item)
    requires Fits(item)
    ensures ReadPart(PrintItem(item)) == Ok(ExpandItem(item))
    ensures ',' !in PrintItem(item)
  {
    match item
    case Single(cpu) => PrintedNumberParses(cpu);
    case Range(first, last) =>
      PrintedNumberParses(first);
      PrintedNumberParses(last);
      var ends := [PrintNumber(first), PrintNumber(last)];
      SplitUndoesJoin(ends, '-');
      assert PrintItem(item) == ends[0] + ['-'] + ends[1];
      assert PrintItem(item)[|ends[0]|] == '-';
  }

  lemma {:induction false} PartsRoundTrip(items: seq<Item>)
    requires forall i | 0 <= i < |items| :: Fits(items[i])
    ensures ReadParts(Printed(items)) == Ok(Expand(items))
    ensures forall piece | piece in Printed(items) :: ',' !in piece
  {
    if items != [] {
      ItemRoundTrip(items[0]);
      PartsRoundTrip(items[1..]);
    }
  }

  /** Parsing what was printed yields every item's numbers, in order. */
  lemma ListRoundTrip(items: seq<Item>)
    requires |items| > 0 && forall i | 0 <= i < |items| :: Fits(items[i])
    ensures ReadList(Print(items)) == Ok(Expand(items))
  {
    PartsRoundTrip(items);
    SplitUndoesJoin(Printed(items), ',');
  }

  /** Runs of consecutive numbers joined into ranges, as the kernel prints an increasing list. */
  function Compress(cpus: seq<nat>): seq<Item> {
    if cpus == [] then [] else Prepend(cpus[0], Compress(cpus[1..]))
  }

  function First(item: Item): nat {
    match item
    case Single(cpu) => cpu
    case Range(first, _) => first
  }

  function Last(item: Item): nat {
    match item
    case Single(cpu) => cpu
    case Range(_, last) => last
  }

  function Prepend(cpu: nat, items: seq<Item>): seq<Item> {
    if items != [] && First(items[0]) == cpu + 1
    then [Range(cpu, Last(items[0]))] + items[1..]
    else [Single(cpu)] + items
  }

  /** No two neighbouring items could have been printed as one range. */
  predicate Maximal(items: seq<Item>) {
    forall i | 0 <= i < |items| - 1 :: Last(items[i]) + 1 != First(items[i + 1])
  }

  predicate IsSound(item: Item, bound: nat) {
    match item
    case Single(cpu) => cpu <= bound
    case Range(first, last) => first < last <= bound
  }

  predicate Sound(items: seq<Item>, bound: nat) {
    forall i | 0 <= i < |items| :: IsSound(items[i], bound)
  }

  lemma PrependShape(cpu: nat, items: seq<Item>, bound: nat)
    requires Sound(items, bound) && Maximal(items) && cpu <= bound
    ensures Sound(Prepend(cpu, items), bound) && Maximal(Prepend(cpu, items))
  {
  }

  lemma ExpandPrepend(cpu: nat, items: seq<Item>, bound: nat)
    requires Sound(items, bound)
    ensures Expand(Prepend(cpu, items)) == [cpu] + Expand(items)
  {
    var all := Prepend(cpu, items);
    if items != [] && First(items[0]) == cpu + 1 {
      assert all[1..] == items[1..];
      assert IsSound(items[0], bound);
      var last := Last(items[0]);
      assert Interval(cpu, last) == [cpu] + Interval(cpu + 1, last);
      assert ExpandItem(items[0]) == Interval(cpu + 1, last);
    } else {
      assert all[1..] == items;
    }
  }

  lemma {:induction false} CompressMeaning(cpus: seq<nat>, bound: nat)
    requires forall i | 0 <= i < |cpus| :: cpus[i] <= bound
    ensures Expand(Compress(cpus)) == cpus
    ensures Sound(Compress(cpus), bound) && Maximal(Compress(cpus))
  {
    if cpus != [] {
      CompressMeaning(cpus[1..], bound);
      PrependShape(cpus[0], Compress(cpus[1..]), bound);
      ExpandPrepend(cpus[0], Compress(cpus[1..]), bound);
    }
  }

  /** Any nonempty list of CPUs compressed to ranges and printed parses back to itself. */
  lemma CompressedListRoundTrip(cpus: seq<nat>)
    requires cpus != [] && forall i | 0 <= i < |cpus| :: cpus[i] < USIZE_RANGE
    ensures Compress(cpus) != [] && ReadList(Print(Compress(cpus))) == Ok(cpus)
  {
    CompressMeaning(cpus, USIZE_RANGE - 1);
    ListRoundTrip(Compress(cpus));
  }

  // ----- What is refused and what is skipped ------------------------------

  predicate IsNumber(s: string) { ParseNumber(s).Some? }

  /** A part with one dash and a bad end, or with no dash and a bad number. */
  predicate Malformed(part: string) {
    var ends := Split(part, '-');
    || (|ends| == 1 && !IsNumber(part))
    || (|ends| == 2 && !(IsNumber(ends[0]) && IsNumber(ends[1])))
  }

  predicate SomeMalformed(parts: seq<string>) {
    exists i :: 0 <= i < |parts| && Malformed(parts[i])
  }

  lemma {:induction false} OnePieceIffNoSeparator(s: string, separator: char)
    ensures |Split(s, separator)| == 1 <==> separator !in s
  {
    if s != "" {
      OnePieceIffNoSeparator(s[1..], separator);
    }
  }

  lemma PartRefusedIffMalformed(part: string)
    ensures ReadPart(part).Err? <==> Malformed(part)
  {
    OnePieceIffNoSeparator(part, '-');
  }

  lemma {:induction false} SomePartIsMalformed(parts: seq<string>)
    ensures ReadParts(parts).Err? <==> SomeMalformed(parts)
  {
    if parts != [] {
      PartRefusedIffMalformed(parts[0]);
      SomePartIsMalformed(parts[1..]);
      assert forall i | 1 <= i < |parts| :: parts[i] == parts[1..][i - 1];
    }
  }

  /** A list is refused exactly when one of its parts is malformed. */
  lemma RefusedIffMalformed(cpulist: string)
    ensures ReadList(cpulist).Err? <==> SomeMalformed(Split(cpulist, ','))
  {
    SomePartIsMalformed(Split(cpulist, ','));
  }

  /** The first malformed part decides the error: a bad end of a range, or a bad number. */
  lemma {:induction false} FirstMalformedPartDecides(parts: seq<string>, i: nat)
    requires i < |parts| && Malformed(parts[i]) && forall j | 0 <= j < i :: !Malformed(parts[j])
    ensures ReadParts(parts) == Err(if '-' in parts[i] then InvalidRange else InvalidNumber)
  {
    OnePieceIffNoSeparator(parts[0], '-');
    PartRefusedIffMalformed(parts[0]);
    if i > 0 {
      FirstMalformedPartDecides(parts[1..], i - 1);
    }
  }

  /** A part with two or more dashes is skipped without an error, whatever it holds. */
  lemma PartWithSeveralDashesIsSkipped(before: seq<string>, part: string, after: seq<string>)
    requires |Split(part, '-')| > 2
    ensures ReadParts(before + [part] + after) == ReadParts(before + after)
  {
    OnePieceIffNoSeparator(part, '-');
    ReadOne(part);
    ThenNothing(ReadParts(before));
    ReadConcat(before, [part]);
    ReadConcat(before + [part], after);
    ReadConcat(before, after);
  }

  /** The list of a node without CPUs, which is empty, is refused. */
  lemma EmptyListIsRefused()
    ensures ReadList("") == Err(InvalidNumber)
  {
  }
}
