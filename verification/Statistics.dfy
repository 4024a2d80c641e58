/**
  `get_disk_stats` of scsi_disk_utils.c: ten counters from one line of text.

  The counters are stored in the order of the source's argument list: reads and writes use
  index 0 and 1 of the four arrays, the ninth number goes to `io_ticks` and the tenth to
  `time_in_queue`.
 */
module Statistics {
  import opened Numerals
  import opened CNumbers
  import opened Sysfs

  const EIO := 5
  const STAT_LINE := 256

  /** `%lu` into a 64-bit field: the value stored, and the text after it. */
  function ScanUnsigned(s: string): Parsed {
    match ReadNumber(s, false)
    case NoNumber => NoNumber
    case Parsed(negative, magnitude, rest) => Parsed(false, ClampUnsigned(negative, magnitude), rest)
  }

  /** The values that at most `n` conversions store.  The white space between the conversions
      of the format skips white space, which the conversions do as well. */
  function ScanUnsigneds(s: string, n: nat): (values: seq<nat>)
    ensures |values| <= n
    decreases n, s
  {
    if n == 0 then []
    else
      match ScanUnsigned(s)
      case NoNumber => []
      case Parsed(_, v, rest) => [v] + ScanUnsigneds(rest, n - 1)
  }

  /** The field that the conversion number `i` is directed at. */
  function Slot(values: seq<nat>, i: nat, before: nat): nat {
    if i < |values| then values[i] else before
  }

  /** The string that `fgets` leaves in the buffer. */
  function StatLine(bytes: string): string {
    CStr(FgetsChunk(bytes, STAT_LINE))
  }

  lemma TextOfBuffer(s: string, c: string)
    requires |c| < |s| && s[..|c|] == c && s[|c|] == NUL
    ensures CStr(s) == CStr(c)
  {
  }

  // ----- the line that the kernel prints

  /** Numbers in decimal, each behind its padding of blanks. */
  function StatText(pads: seq<string>, numbers: seq<nat>): string
    requires |pads| == |numbers|
  {
    if pads == [] then ""
    else pads[0] + (Digits(numbers[0], 10) + StatText(pads[1..], numbers[1..]))
  }

  predicate Blanks(s: string) {
    forall i :: 0 <= i < |s| ==> s[i] == ' '
  }

  /** All paddings are blanks, and each but the first has at least one. */
  predicate Separated(pads: seq<string>) {
    (forall i :: 0 <= i < |pads| ==> Blanks(pads[i])) && (forall i :: 0 < i < |pads| ==> pads[i] != "")
  }

  /** The conversions store exactly the given numbers, one by one. */
  predicate ScansTo(s: string, numbers: seq<nat>)
    decreases |numbers|
  {
    numbers == [] || (var p := ScanUnsigned(s);
                      p.Parsed? && p.magnitude == numbers[0] && ScansTo(p.rest, numbers[1..]))
  }

  lemma PrependEqual(n: nat, v: seq<nat>, numbers: seq<nat>)
    requires numbers != []
    ensures [n] + v == numbers <==> n == numbers[0] && v == numbers[1..]
  {
  }

  lemma {:induction false} ScansToIff(s: string, numbers: seq<nat>)
    ensures ScansTo(s, numbers) <==> ScanUnsigneds(s, |numbers|) == numbers
    decreases |numbers|
  {
    if numbers == [] {
    } else {
      var p := ScanUnsigned(s);
      if p.Parsed? {
        ScansToIff(p.rest, numbers[1..]);
        PrependEqual(p.magnitude, ScanUnsigneds(p.rest, |numbers| - 1), numbers);
      }
    }
  }

  lemma {:induction false} SkipBlanks(pad: string, t: string)
    requires Blanks(pad)
    ensures SkipSpace(pad + t) == SkipSpace(t)
  {
    if pad == "" {
      assert pad + t == t;
    } else {
      assert (pad + t)[1..] == pad[1..] + t;
      SkipBlanks(pad[1..], t);
    }
  }

  lemma ReadBehindBlanks(pad: string, t: string)
    requires Blanks(pad)
    ensures ReadNumber(pad + t, false) == ReadNumber(t, false)
  {
    SkipBlanks(pad, t);
  }

  lemma ScanPadded(pad: string, n: nat, rest: string)
    requires Blanks(pad) && n <= ULLONG_MAX && EndsNumber(rest, 10)
    ensures ScanUnsigned(pad + (Digits(n, 10) + rest)) == Parsed(false, n, rest)
  {
    ReadBehindBlanks(pad, Digits(n, 10) + rest);
    ReadDecimal(n, rest, false);
  }

  lemma SeparatedTail(pads: seq<string>)
    requires pads != [] && Separated(pads)
    ensures Separated(pads[1..]) && forall i :: 0 <= i < |pads| - 1 ==> Blanks(pads[1..][i]) && pads[1..][i] != ""
  {
  }

  lemma MoreEndsNumber(pads: seq<string>, numbers: seq<nat>, rest: string)
    requires |pads| == |numbers| && (forall i :: 0 <= i < |pads| ==> Blanks(pads[i]) && pads[i] != "")
    requires EndsNumber(rest, 10)
    ensures EndsNumber(StatText(pads, numbers) + rest, 10)
  {
  }

  /** Scanning the printed numbers yields them, whatever follows. */
  lemma {:induction false} ScanStatText(pads: seq<string>, numbers: seq<nat>, rest: string)
    requires |pads| == |numbers| && Separated(pads) && EndsNumber(rest, 10)
    requires forall n :: n in numbers ==> n <= ULLONG_MAX
    ensures ScansTo(StatText(pads, numbers) + rest, numbers)
    decreases |pads|
  {
    if pads == [] {
    } else {
      var more := StatText(pads[1..], numbers[1..]) + rest;
      assert StatText(pads, numbers) + rest == pads[0] + (Digits(numbers[0], 10) + more);
      SeparatedTail(pads);
      assert forall n :: n in numbers[1..] ==> n in numbers;
      MoreEndsNumber(pads[1..], numbers[1..], rest);
      assert numbers[0] in numbers;
      ScanPadded(pads[0], numbers[0], more);
      ScanStatText(pads[1..], numbers[1..], rest);
    }
  }

  /** Printed numbers contain neither newlines nor NULs. */
  lemma {:induction false} StatTextIsPlain(pads: seq<string>, numbers: seq<nat>)
    requires |pads| == |numbers| && Separated(pads)
    ensures forall c :: c in StatText(pads, numbers) ==> c != '\n' && c != NUL
    decreases |pads|
  {
    if pads == [] {
    } else {
      SeparatedTail(pads);
      StatTextIsPlain(pads[1..], numbers[1..]);
      ValueOfDigits(numbers[0], 10);
    }
  }

  /** What `fgets` sees of a file that starts with a text without newline that fits. */
  lemma {:induction false} ChunkKeeps(text: string, rest: string, size: nat)
    requires |text| < size && forall c :: c in text ==> c != '\n'
    ensures FgetsChunk(text + rest, size) == text + FgetsChunk(rest, size - |text|)
    decreases |text|
  {
    if text == "" {
      assert text + rest == rest;
    } else {
      assert (text + rest)[1..] == text[1..] + rest;
      assert text[0] in text && forall c :: c in text[1..] ==> c in text;
      ChunkKeeps(text[1..], rest, size - 1);
      assert text == [text[0]] + text[1..];
    }
  }

  lemma NoNumberInBlanks(pad: string)
    requires Blanks(pad)
    ensures ReadNumber(pad, false).NoNumber?
  {
    SkipBlanks(pad, "");
    assert pad + "" == pad;
  }

  lemma CutDigits(n: nat, k: nat)
    requires 0 < k < |Digits(n, 10)| && n <= ULLONG_MAX
    ensures var p := ReadNumber(Digits(n, 10)[..k], false);
            p.Parsed? && !p.negative && p.magnitude < n
  {
    var d := Digits(n, 10)[..k];
    ValueOfDigits(n, 10);
    LeadingDigit(n, 10);
    assert d[0] == Digits(n, 10)[0] && IsDigit(d[0], 10);
    PrefixIsLess(Digits(n, 10), k, 10);
    SpanOfDigits(d, "", 10);
    assert d + "" == d && SkipSpace(d) == d && !IsSign(d);
  }

  lemma CutDigitsBehindBlanks(pad: string, n: nat, k: nat)
    requires Blanks(pad) && 0 < k < |Digits(n, 10)| && n <= ULLONG_MAX
    ensures var p := ScanUnsigned(pad + Digits(n, 10)[..k]); p.Parsed? && p.magnitude < n
  {
    ReadBehindBlanks(pad, Digits(n, 10)[..k]);
    CutDigits(n, k);
  }

  lemma CutFieldDiffers(pad: string, n: nat, k: nat)
    requires Blanks(pad) && k < |pad| + |Digits(n, 10)| && n <= ULLONG_MAX
    ensures var p := ScanUnsigned((pad + Digits(n, 10))[..k]); p.Parsed? ==> p.magnitude != n
  {
    var digits := Digits(n, 10);
    if k <= |pad| {
      assert (pad + digits)[..k] == pad[..k];
      NoNumberInBlanks(pad[..k]);
    } else {
      assert (pad + digits)[..k] == pad + digits[..k - |pad|];
      CutDigitsBehindBlanks(pad, n, k - |pad|);
    }
  }

  lemma CutInFirstField(pad: string, numbers: seq<nat>, k: nat)
    requires Blanks(pad) && numbers != [] && numbers[0] <= ULLONG_MAX
    requires k < |pad| + |Digits(numbers[0], 10)|
    ensures !ScansTo((pad + Digits(numbers[0], 10))[..k], numbers)
  {
    CutFieldDiffers(pad, numbers[0], k);
  }

  lemma CutBehindFirstField(pad: string, numbers: seq<nat>, seen: string)
    requires Blanks(pad) && numbers != [] && numbers[0] <= ULLONG_MAX && EndsNumber(seen, 10)
    requires !ScansTo(seen, numbers[1..])
    ensures !ScansTo(pad + (Digits(numbers[0], 10) + seen), numbers)
  {
    ScanPadded(pad, numbers[0], seen);
  }

  lemma CutAtFields(pad: string, digits: string, more: string, k: nat)
    requires k <= |pad + (digits + more)|
    ensures var f := |pad| + |digits|;
            (pad + (digits + more))[..k]
            == if k < f then (pad + digits)[..k] else pad + (digits + more[..k - f])
  {
  }

  lemma CutField(pad: string, numbers: seq<nat>, more: string, k: nat)
    requires Blanks(pad) && numbers != [] && numbers[0] <= ULLONG_MAX
    requires var f := |pad| + |Digits(numbers[0], 10)|;
             k < f + |more|
             && (k >= f ==> EndsNumber(more[..k - f], 10) && !ScansTo(more[..k - f], numbers[1..]))
    ensures !ScansTo((pad + (Digits(numbers[0], 10) + more))[..k], numbers)
  {
    var f := |pad| + |Digits(numbers[0], 10)|;
    CutAtFields(pad, Digits(numbers[0], 10), more, k);
    if k < f {
      CutInFirstField(pad, numbers, k);
    } else {
      CutBehindFirstField(pad, numbers, more[..k - f]);
    }
  }

  lemma CutTextEndsNumber(pads: seq<string>, numbers: seq<nat>, k: nat)
    requires |pads| == |numbers| && (forall i :: 0 <= i < |pads| ==> Blanks(pads[i]) && pads[i] != "")
    requires k <= |StatText(pads, numbers)|
    ensures EndsNumber(StatText(pads, numbers)[..k], 10)
  {
  }

  /** A line that is cut inside the fields does not scan to the numbers. */
  lemma {:induction false} CutTextDiffers(pads: seq<string>, numbers: seq<nat>, k: nat)
    requires |pads| == |numbers| && Separated(pads) && k < |StatText(pads, numbers)|
    requires forall n :: n in numbers ==> n <= ULLONG_MAX
    ensures !ScansTo(StatText(pads, numbers)[..k], numbers)
    decreases |pads|
  {
    var f, more := |pads[0]| + |Digits(numbers[0], 10)|, StatText(pads[1..], numbers[1..]);
    assert numbers[0] in numbers;
    if k >= f {
      SeparatedTail(pads);
      assert forall n :: n in numbers[1..] ==> n in numbers;
      CutTextDiffers(pads[1..], numbers[1..], k - f);
      CutTextEndsNumber(pads[1..], numbers[1..], k - f);
    }
    CutField(pads[0], numbers, more, k);
  }

  lemma CStrKeeps(text: string, rest: string)
    requires forall c :: c in text ==> c != NUL
    ensures CStr(text + rest) == text + CStr(rest)
  {
    var k := Reach(rest, NUL);
    var t := text + rest;
    assert forall i :: 0 <= i < |text| ==> t[i] == text[i] && text[i] in text;
    assert forall i :: |text| <= i < |t| ==> t[i] == rest[i - |text|];
    ReachIs(t, NUL, |text| + k);
  }

  /** For any ten 64-bit numbers, however padded: every number lands in its own slot and the
      call succeeds, whatever fields follow, exactly if the ten fields take at most 255
      characters. */
  lemma StatLineIff(pads: seq<string>, numbers: seq<nat>, rest: string)
    requires |pads| == |numbers| == 10 && Separated(pads) && EndsNumber(rest, 10)
    requires forall n :: n in numbers ==> n < 0x1_0000_0000_0000_0000
    ensures ScanUnsigneds(StatLine(StatText(pads, numbers) + rest), 10) == numbers
            <==> |StatText(pads, numbers)| <= 255
  {
    var text := StatText(pads, numbers);
    StatTextIsPlain(pads, numbers);
    if |text| < STAT_LINE {
      ChunkKeeps(text, rest, STAT_LINE);
      var tail := FgetsChunk(rest, STAT_LINE - |text|);
      ChunkIsPrefix(rest, STAT_LINE - |text|);
      CStrKeeps(text, tail);
      assert EndsNumber(CStr(tail), 10);
      ScanStatText(pads, numbers, CStr(tail));
      ScansToIff(text + CStr(tail), numbers);
    } else {
      var seen := text[..STAT_LINE - 1];
      assert text + rest == seen + (text[STAT_LINE - 1..] + rest);
      assert forall c :: c in seen ==> c in text;
      ChunkKeeps(seen, text[STAT_LINE - 1..] + rest, STAT_LINE);
      CStrKeeps(seen, "");
      assert StatLine(text + rest) == seen;
      CutTextDiffers(pads, numbers, STAT_LINE - 1);
      ScansToIff(seen, numbers);
    }
  }

  /** `%lu` reads the text of an integer modulo 2^64, or as the maximum if it has more bits. */
  lemma ScanUnsignedOfText(n: int, rest: string)
    requires EndsNumber(rest, 10)
    ensures var max := 0xFFFF_FFFF_FFFF_FFFF;
            ScanUnsigned(IntText(n) + rest) ==
              Parsed(false, if n < -max || n > max then max else if n < 0 then max + 1 + n else n, rest)
  {
    ReadInt(n, rest, false);
  }

  /** Fields as the kernel prints them, at most 20 characters wide and one blank apart, always
      fit: the cut at 255 characters never reaches into the first ten. */
  lemma {:induction false} FieldsFit(pads: seq<string>, numbers: seq<nat>)
    requires |pads| == |numbers|
    requires forall i :: 0 <= i < |pads| ==> |pads[i]| + |Digits(numbers[i], 10)| <= 21
    ensures |StatText(pads, numbers)| <= 21 * |pads|
    decreases |pads|
  {
    if pads == [] {
    } else {
      FieldsFit(pads[1..], numbers[1..]);
    }
  }

  lemma KernelLineScans(pads: seq<string>, numbers: seq<nat>, rest: string)
    requires |pads| == |numbers| == 10 && Separated(pads) && EndsNumber(rest, 10)
    requires forall n :: n in numbers ==> n < 0x1_0000_0000_0000_0000
    requires forall i :: 0 <= i < 10 ==> |pads[i]| + |Digits(numbers[i], 10)| <= 21
    ensures ScanUnsigneds(StatLine(StatText(pads, numbers) + rest), 10) == numbers
  {
    FieldsFit(pads, numbers);
    StatLineIff(pads, numbers, rest);
  }

  // ----- the call

  class DiskStats {
    var ios: (nat, nat)
    var merges: (nat, nat)
    var sectors: (nat, nat)
    var ticks: (nat, nat)
    var ioTicks: nat
    var timeInQueue: nat

    constructor ()
    {
      ios, merges, sectors, ticks := (0, 0), (0, 0), (0, 0), (0, 0);
      ioTicks, timeInQueue := 0, 0;
    }

    /** One `sscanf`: the fields reached by the conversions are overwritten, the others stay. */
    method Scan(s: string) returns (count: nat)
      modifies this
      ensures var v := ScanUnsigneds(s, 10);
              && count == |v|
              && ios == (Slot(v, 0, old(ios.0)), Slot(v, 4, old(ios.1)))
              && merges == (Slot(v, 1, old(merges.0)), Slot(v, 5, old(merges.1)))
              && sectors == (Slot(v, 2, old(sectors.0)), Slot(v, 6, old(sectors.1)))
              && ticks == (Slot(v, 3, old(ticks.0)), Slot(v, 7, old(ticks.1)))
              && ioTicks == Slot(v, 8, old(ioTicks)) && timeInQueue == Slot(v, 9, old(timeInQueue))
    {
      var v := ScanUnsigneds(s, 10);
      count := |v|;
      ios := (Slot(v, 0, ios.0), Slot(v, 4, ios.1));
      merges := (Slot(v, 1, merges.0), Slot(v, 5, merges.1));
      sectors := (Slot(v, 2, sectors.0), Slot(v, 6, sectors.1));
      ticks := (Slot(v, 3, ticks.0), Slot(v, 7, ticks.1));
      ioTicks := Slot(v, 8, ioTicks);
      timeInQueue := Slot(v, 9, timeInQueue);
    }

    /** `get_disk_stats` for the disk's `stat` file: 0 exactly if ten numbers were read from
        its first line (of which at most 255 characters are seen). */
    method GetDiskStats(file: File) returns (err: int)
      modifies this
      ensures var v := if file.Contents? then ScanUnsigneds(StatLine(file.bytes), 10) else [];
              && err == (if !file.Contents? || file.bytes == "" then -5 else if |v| == 10 then 0 else 1)
              && ios == (Slot(v, 0, old(ios.0)), Slot(v, 4, old(ios.1)))
              && merges == (Slot(v, 1, old(merges.0)), Slot(v, 5, old(merges.1)))
              && sectors == (Slot(v, 2, old(sectors.0)), Slot(v, 6, old(sectors.1)))
              && ticks == (Slot(v, 3, old(ticks.0)), Slot(v, 7, old(ticks.1)))
              && ioTicks == Slot(v, 8, old(ioTicks)) && timeInQueue == Slot(v, 9, old(timeInQueue))
    {
      if file.Missing? {
        return -EIO;
      }
      var line := new char[STAT_LINE];
      var ok := Fgets(line, file);
      if !ok {
        if file.Contents? {
          ChunkIsPrefix(file.bytes, STAT_LINE);
        }
        return -EIO;
      }
      var c := FgetsChunk(file.bytes, STAT_LINE);
      TextOfBuffer(line[..], c);
      var count := Scan(CStr(line[..]));
      err := if count != 10 then 1 else 0;
    }

    /** The call for a file that holds ten numbers of 64 bits, however padded, in at most 255
        characters, and anything behind: every field holds its own number. */
    method GetPrintedStats(file: File, ghost pads: seq<string>, ghost numbers: seq<nat>, ghost rest: string)
      returns (err: int)
      requires |pads| == |numbers| == 10 && Separated(pads) && EndsNumber(rest, 10)
      requires forall n :: n in numbers ==> n < 0x1_0000_0000_0000_0000
      requires |StatText(pads, numbers)| <= 255 && file == Contents(StatText(pads, numbers) + rest)
      modifies this
      ensures err == 0
      ensures ios == (numbers[0], numbers[4]) && merges == (numbers[1], numbers[5])
      ensures sectors == (numbers[2], numbers[6]) && ticks == (numbers[3], numbers[7])
      ensures ioTicks == numbers[8] && timeInQueue == numbers[9]
    {
      StatLineIff(pads, numbers, rest);
      err := GetDiskStats(file);
    }
  }
}
