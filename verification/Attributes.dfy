/**
  Records filled from directories of attribute files: `get_disk_queue_data`
  (scsi_disk_utils.c) and `get_fc_dev_stats` (scsi_fcp_utils.c).

  Every read goes through the one static line buffer of `open_sysfs_stats_file` and one
  local buffer.  A directory maps file names to files.
 */
module Attributes {
  import opened Numerals
  import opened CNumbers
  import opened Sysfs

  type Directory = map<string, File>

  const QUEUE_BUF := 32
  const FC_BUF := 64

  /** The file is there and not empty (a null result is not checked by the callers). */
  predicate Present(dir: Directory, name: string) {
    name in dir && dir[name].Contents? && dir[name].bytes != ""
  }

  /** The first line of the file can serve as a format. */
  predicate PlainFormat(dir: Directory, name: string) {
    Present(dir, name) && '%' !in FirstLine(dir[name].bytes)
  }

  function Cut(s: string, size: nat): string
    requires size > 0
  {
    s[..Min(|s|, size - 1)]
  }

  /** What one read leaves in a local buffer of the given size. */
  function BufferText(dir: Directory, name: string, size: nat): string
    requires Present(dir, name) && size > 0
  {
    Cut(FirstLine(dir[name].bytes), size)
  }

  /** How a text becomes the value of a `u64` field. */
  datatype Decoder = Unsigned | Signed

  function Decode(decoder: Decoder, text: string): nat {
    match decoder
    case Unsigned => Strtoull(text)
    case Signed => ToU64(Strtol(text))
  }

  /** The number in a file, read through a buffer of the given size. */
  function Number(dir: Directory, name: string, decoder: Decoder, size: nat): nat
    requires Present(dir, name) && size > 0
  {
    Decode(decoder, BufferText(dir, name, size))
  }

  /** `values` holds, under the names of some files that can be read, the numbers in them. */
  ghost predicate AreNumbers(values: map<string, nat>, dir: Directory, decoder: Decoder, size: nat)
    requires size > 0
  {
    forall name {:trigger PlainFormat(dir, name)} :: name in values ==>
      PlainFormat(dir, name) && values[name] == Number(dir, name, decoder, size)
  }

  /** The numbers in all files of a directory that can be read. */
  function Numbers(dir: Directory, decoder: Decoder, size: nat): (values: map<string, nat>)
    requires size > 0
    ensures AreNumbers(values, dir, decoder, size)
  {
    map name | name in dir && PlainFormat(dir, name) :: Number(dir, name, decoder, size)
  }

  class AttributeReader {
    const stats: StatsReader
    const buf: array<char>

    constructor (size: nat)
      requires size > 0
      ensures Valid() && buf.Length == size && fresh(buf) && fresh(stats.line)
    {
      stats := new StatsReader();
      buf := new char[size](_ => NUL);
    }

    predicate Valid() {
      stats.line.Length == LINE_SIZE && buf.Length > 0 && buf != stats.line
    }

    /** `snprintf(buf, sizeof(buf), open_sysfs_stats_file(path))`: whatever the two buffers held
        before, the local one then holds the text of this file. */
    method Fetch(dir: Directory, name: string)
      requires Valid() && PlainFormat(dir, name)
      modifies buf, stats.line
      ensures CStr(buf[..]) == BufferText(dir, name, buf.Length)
    {
      var p := stats.OpenSysfsStatsFile(dir[name]);
      SnprintfText(buf, p);
    }

    /** The same with the format "%s". */
    method FetchString(dir: Directory, name: string)
      requires Valid() && Present(dir, name)
      modifies buf, stats.line
      ensures CStr(buf[..]) == BufferText(dir, name, buf.Length)
    {
      var p := stats.OpenSysfsStatsFile(dir[name]);
      SnprintfString(buf, p);
    }

    /** One read, and the conversion of what it left in the buffer. */
    method FetchNumber(dir: Directory, name: string, decoder: Decoder, ghost values: map<string, nat>)
      returns (n: nat)
      requires Valid() && AreNumbers(values, dir, decoder, buf.Length) && name in values
      modifies buf, stats.line
      ensures n == values[name]
    {
      assert PlainFormat(dir, name);
      Fetch(dir, name);
      n := Decode(decoder, CStr(buf[..]));
    }
  }

  // ----- attributes as the kernel prints them

  lemma LineOfText(text: string, end: string)
    requires text != "" && (end == "" || end == "\n")
    requires forall c :: c in text ==> c != NUL && c != '\n' && c != '%'
    ensures FirstLine(text + end) == if |text| <= 63 then text else text[..63]
  {
    var bytes := text + end;
    var seen := bytes[..Min(|bytes|, LINE_SIZE - 1)];
    assert forall i :: 0 <= i < |seen| && i < |text| ==> seen[i] == text[i] && text[i] in text;
    ReachIs(seen, '\n', Min(|text|, LINE_SIZE - 1));
  }

  /** A text without special characters, with or without a newline behind it, arrives whole exactly
      if it fits the local buffer and has less than 64 characters: up to 31 in the queue directory,
      up to 63 in the statistics directory. */
  lemma TextArrivesIff(dir: Directory, name: string, text: string, end: string, size: nat)
    requires name in dir && dir[name] == Contents(text + end) && (end == "" || end == "\n")
    requires text != "" && size > 0
    requires forall c :: c in text ==> c != NUL && c != '\n' && c != '%'
    ensures PlainFormat(dir, name)
    ensures BufferText(dir, name, size) == text <==> |text| < size && |text| <= 63
    ensures BufferText(dir, name, QUEUE_BUF) == text <==> |text| <= 31
    ensures BufferText(dir, name, FC_BUF) == text <==> |text| <= 63
  {
    LineOfText(text, end);
    assert forall i :: 0 <= i < |text| ==> text[i] in text;
  }

  lemma DigitsArePlain(n: nat, base: nat)
    requires 2 <= base <= 16
    ensures Digits(n, base) != ""
    ensures forall c :: c in Digits(n, base) ==> c != NUL && c != '\n' && c != '%'
  {
    ValueOfDigits(n, base);
    LeadingDigit(n, base);
  }

  lemma HexTextIsPlain(n: nat)
    ensures HexText(n) != "" && forall c :: c in HexText(n) ==> c != NUL && c != '\n' && c != '%'
  {
    DigitsArePlain(n, 16);
  }

  lemma U64DigitsFit(n: nat)
    requires n <= ULLONG_MAX
    ensures |Digits(n, 10)| <= 20
  {
    assert Power(10, 5) == 100000;
    assert Power(10, 10) == 10000000000;
    assert Power(10, 15) == 1000000000000000;
    assert Power(10, 20) == 100000000000000000000;
    DigitsLength(n, 10, 20);
  }

  /** Any 64-bit number in decimal arrives in its field: no buffer cuts it, and the digits are
      not taken as octal or hexadecimal. */
  lemma DecimalAttributeIsExact(dir: Directory, name: string, n: nat)
    requires name in dir && dir[name] == Contents(Digits(n, 10) + "\n") && n <= ULLONG_MAX
    ensures PlainFormat(dir, name) && Number(dir, name, Unsigned, QUEUE_BUF) == n
  {
    DigitsArePlain(n, 10);
    U64DigitsFit(n);
    TextArrivesIff(dir, name, Digits(n, 10), "\n", QUEUE_BUF);
    DecimalRoundTrip(n);
  }

  lemma NegativeIsPlain(n: nat)
    requires 0 < n <= ULLONG_MAX
    ensures var text := "-" + Digits(n, 10);
            1 < |text| <= 21 && forall c :: c in text ==> c != NUL && c != '\n' && c != '%'
  {
    DigitsArePlain(n, 10);
    U64DigitsFit(n);
  }

  /** A negative number, like the default of `io_poll_delay`, is stored as its complement. */
  lemma NegativeAttributeWraps(dir: Directory, name: string, n: nat)
    requires name in dir && dir[name] == Contents("-" + Digits(n, 10) + "\n") && 0 < n <= ULLONG_MAX
    ensures PlainFormat(dir, name)
    ensures Number(dir, name, Unsigned, QUEUE_BUF) == 0x1_0000_0000_0000_0000 - n
  {
    NegativeIsPlain(n);
    TextArrivesIff(dir, name, "-" + Digits(n, 10), "\n", QUEUE_BUF);
    NegativeRoundTrip(n);
  }

  lemma StoredLong(x: int)
    requires -0x8000_0000_0000_0000 <= x < 0x8000_0000_0000_0000
    ensures ToU64(x) as int == if x >= 0 then x else 0x1_0000_0000_0000_0000 + x
  {
  }

  /** What `strtol` makes of a negative number in decimal: its complement, down to -2^63. */
  lemma NegativeCounterWraps(dir: Directory, name: string, n: nat)
    requires name in dir && dir[name] == Contents("-" + Digits(n, 10) + "\n") && 0 < n <= ULLONG_MAX
    ensures PlainFormat(dir, name)
    ensures Number(dir, name, Signed, FC_BUF) ==
              if n <= 0x8000_0000_0000_0000 then 0x1_0000_0000_0000_0000 - n else 0x8000_0000_0000_0000
  {
    NegativeIsPlain(n);
    TextArrivesIff(dir, name, "-" + Digits(n, 10), "\n", FC_BUF);
    LongRoundTrip(-(n as int));
    StoredLong(Strtol("-" + Digits(n, 10)));
  }

  lemma Modulo64(n: int)
    requires -0x1_0000_0000_0000_0000 < n < 0x1_0000_0000_0000_0000
    ensures n % 0x1_0000_0000_0000_0000 == if n < 0 then 0x1_0000_0000_0000_0000 + n else n
  {
  }

  lemma U64HexDigitsFit(n: nat)
    requires n <= ULLONG_MAX
    ensures |HexText(n)| <= 18
  {
    assert Power(16, 4) == 0x1_0000;
    assert Power(16, 8) == 0x1_0000_0000;
    assert Power(16, 12) == 0x1_0000_0000_0000;
    assert Power(16, 16) == 0x1_0000_0000_0000_0000;
    DigitsLength(n, 16, 16);
  }

  /** Any 64-bit counter in the form of `%#llx` arrives below 2^63, and is cut to 2^63 - 1 from
      there on. */
  lemma HexCounterArrives(dir: Directory, name: string, n: nat)
    requires name in dir && dir[name] == Contents(HexText(n) + "\n") && n <= ULLONG_MAX
    ensures PlainFormat(dir, name)
    ensures Number(dir, name, Signed, FC_BUF) == if n < 0x8000_0000_0000_0000 then n else 0x7FFF_FFFF_FFFF_FFFF
    ensures Number(dir, name, Signed, FC_BUF) == n <==> n < 0x8000_0000_0000_0000
  {
    HexTextIsPlain(n);
    U64HexDigitsFit(n);
    TextArrivesIff(dir, name, HexText(n), "\n", FC_BUF);
    HexRoundTrip(n);
    StoredLong(Strtol(HexText(n)));
  }

  /** The files hold these numbers in decimal, as the kernel prints them. */
  ghost predicate PrintedDecimal(dir: Directory, numbers: map<string, int>) {
    forall name :: name in numbers ==>
      && name in dir && dir[name] == Contents(IntText(numbers[name]) + "\n")
      && -0x1_0000_0000_0000_0000 < numbers[name] < 0x1_0000_0000_0000_0000
  }

  /** Every such number is stored modulo 2^64. */
  lemma PrintedNumberArrives(dir: Directory, numbers: map<string, int>, name: string)
    requires PrintedDecimal(dir, numbers) && name in numbers
    ensures name in Numbers(dir, Unsigned, QUEUE_BUF)
    ensures Number(dir, name, Unsigned, QUEUE_BUF) == numbers[name] % 0x1_0000_0000_0000_0000
  {
    var n := numbers[name];
    if n < 0 {
      NegativeAttributeWraps(dir, name, -n);
    } else {
      DecimalAttributeIsExact(dir, name, n);
    }
    Modulo64(n);
  }

  /** The files hold these numbers in the form of `%#llx`. */
  ghost predicate PrintedHex(dir: Directory, numbers: map<string, nat>) {
    forall name :: name in numbers ==>
      && name in dir && dir[name] == Contents(HexText(numbers[name]) + "\n")
      && numbers[name] < 0x1_0000_0000_0000_0000
  }

  lemma PrintedCounterArrives(dir: Directory, numbers: map<string, nat>, name: string)
    requires PrintedHex(dir, numbers) && name in numbers
    ensures name in Numbers(dir, Signed, FC_BUF)
    ensures Number(dir, name, Signed, FC_BUF) == Min(numbers[name], 0x7FFF_FFFF_FFFF_FFFF)
  {
    HexCounterArrives(dir, name, numbers[name]);
  }

  // ----- the queue directory

  /** The files that `get_disk_queue_data` reads numbers from. */
  predicate HasQueueFiles<V>(values: map<string, V>) {
    && "chunk_sectors" in values && "fua" in values && "hw_sector_size" in values
    && "io_poll" in values && "io_poll_delay" in values && "iostats" in values
    && "io_timeout" in values && "physical_block_size" in values && "logical_block_size" in values
    && "minimum_io_size" in values && "optimal_io_size" in values && "discard_zeroes_data" in values
    && "discard_max_hw_bytes" in values && "discard_max_bytes" in values && "nr_zones" in values
    && "nomerges" in values && "nr_requests" in values && "zone_append_max_bytes" in values
    && "zone_write_granularity" in values && "zoned" in values && "read_ahead_kb" in values
    && "write_same_max_bytes" in values && "write_zeroes_max_bytes" in values
    && "max_discard_segments" in values && "max_hw_sectors_kb" in values
    && "max_integrity_segments" in values && "max_sectors_kb" in values && "max_segments" in values
    && "max_segment_size" in values && "rq_affinity" in values && "stable_writes" in values
    && "rotational" in values && "add_random" in values && "virt_boundary_mask" in values
    && "wbt_lat_usec" in values && "dax" in values
  }

  /** `struct disk_queue_data`; the last seven fields are not read from this directory. */
  datatype DiskQueueData = DiskQueueData(
    chunkSectors: nat, fua: nat, hwSectorSize: nat, ioPoll: nat, ioPollDelay: nat, iostats: nat,
    ioTimeout: nat, physicalBlockSize: nat, logicalBlockSize: nat, minimumIoSize: nat,
    optimalIoSize: nat, discardZeroesData: nat, discardMaxHwBytes: nat, discardMaxBytes: nat,
    nrZones: nat, nomerges: nat, nrRequests: nat, zoneAppendMaxBytes: nat,
    zoneWriteGranularity: nat, zoned: nat, readAheadKb: nat, writeSameMaxBytes: nat,
    writeZeroesMaxBytes: nat, maxDiscardSegments: nat, maxHwSectorsKb: nat,
    maxIntegritySegments: nat, maxSectorsKb: nat, maxSegments: nat, maxSegmentSize: nat,
    rqAffinity: nat, stableWrites: nat, rotational: nat, addRandom: nat, virtBoundaryMask: nat,
    wbtLatUsec: nat, dax: nat,
    writeCache: string, scheduler: string,
    discardGranularity: nat, asyncDepth: nat, fifoBatch: nat, frontMerges: nat, readExpire: nat,
    writeExpire: nat, writesStarved: nat)

  /** The record of a disk, as far as it holds queue data. */
  class DiskQueue {
    var data: DiskQueueData

    constructor (data: DiskQueueData)
    {
      this.data := data;
    }

    /** The reads up to the block sizes. */
    method ReadIo(dir: Directory, reader: AttributeReader, ghost values: map<string, nat>)
      requires reader.Valid() && reader.buf.Length == QUEUE_BUF
      requires AreNumbers(values, dir, Unsigned, QUEUE_BUF) && HasQueueFiles(values)
      modifies this, reader.buf, reader.stats.line
      ensures data == old(data).(
                chunkSectors := values["chunk_sectors"], fua := values["fua"],
                hwSectorSize := values["hw_sector_size"], ioPoll := values["io_poll"],
                ioPollDelay := values["io_poll_delay"], iostats := values["iostats"],
                ioTimeout := values["io_timeout"],
                physicalBlockSize := values["physical_block_size"],
                logicalBlockSize := values["logical_block_size"])
    {
      var n;
      n := reader.FetchNumber(dir, "chunk_sectors", Unsigned, values);
      data := data.(chunkSectors := n);
      n := reader.FetchNumber(dir, "fua", Unsigned, values);
      data := data.(fua := n);
      n := reader.FetchNumber(dir, "hw_sector_size", Unsigned, values);
      data := data.(hwSectorSize := n);
      n := reader.FetchNumber(dir, "io_poll", Unsigned, values);
      data := data.(ioPoll := n);
      n := reader.FetchNumber(dir, "io_poll_delay", Unsigned, values);
      data := data.(ioPollDelay := n);
      n := reader.FetchNumber(dir, "iostats", Unsigned, values);
      data := data.(iostats := n);
      n := reader.FetchNumber(dir, "io_timeout", Unsigned, values);
      data := data.(ioTimeout := n);
      n := reader.FetchNumber(dir, "physical_block_size", Unsigned, values);
      data := data.(physicalBlockSize := n);
      n := reader.FetchNumber(dir, "logical_block_size", Unsigned, values);
      data := data.(logicalBlockSize := n);
    }

    /** The reads up to the zone limits. */
    method ReadLimits(dir: Directory, reader: AttributeReader, ghost values: map<string, nat>)
      requires reader.Valid() && reader.buf.Length == QUEUE_BUF
      requires AreNumbers(values, dir, Unsigned, QUEUE_BUF) && HasQueueFiles(values)
      modifies this, reader.buf, reader.stats.line
      ensures data == old(data).(
                minimumIoSize := values["minimum_io_size"],
                optimalIoSize := values["optimal_io_size"],
                discardZeroesData := values["discard_zeroes_data"],
                discardMaxHwBytes := values["discard_max_hw_bytes"],
                discardMaxBytes := values["discard_max_bytes"], nrZones := values["nr_zones"],
                nomerges := values["nomerges"], nrRequests := values["nr_requests"],
                zoneAppendMaxBytes := values["zone_append_max_bytes"])
    {
      var n;
      n := reader.FetchNumber(dir, "minimum_io_size", Unsigned, values);
      data := data.(minimumIoSize := n);
      n := reader.FetchNumber(dir, "optimal_io_size", Unsigned, values);
      data := data.(optimalIoSize := n);
      n := reader.FetchNumber(dir, "discard_zeroes_data", Unsigned, values);
      data := data.(discardZeroesData := n);
      n := reader.FetchNumber(dir, "discard_max_hw_bytes", Unsigned, values);
      data := data.(discardMaxHwBytes := n);
      n := reader.FetchNumber(dir, "discard_max_bytes", Unsigned, values);
      data := data.(discardMaxBytes := n);
      n := reader.FetchNumber(dir, "nr_zones", Unsigned, values);
      data := data.(nrZones := n);
      n := reader.FetchNumber(dir, "nomerges", Unsigned, values);
      data := data.(nomerges := n);
      n := reader.FetchNumber(dir, "nr_requests", Unsigned, values);
      data := data.(nrRequests := n);
      n := reader.FetchNumber(dir, "zone_append_max_bytes", Unsigned, values);
      data := data.(zoneAppendMaxBytes := n);
    }

    /** The reads up to the transfer sizes. */
    method ReadTransfers(dir: Directory, reader: AttributeReader, ghost values: map<string, nat>)
      requires reader.Valid() && reader.buf.Length == QUEUE_BUF
      requires AreNumbers(values, dir, Unsigned, QUEUE_BUF) && HasQueueFiles(values)
      modifies this, reader.buf, reader.stats.line
      ensures data == old(data).(
                zoneWriteGranularity := values["zone_write_granularity"], zoned := values["zoned"],
                readAheadKb := values["read_ahead_kb"],
                writeSameMaxBytes := values["write_same_max_bytes"],
                writeZeroesMaxBytes := values["write_zeroes_max_bytes"],
                maxDiscardSegments := values["max_discard_segments"],
                maxHwSectorsKb := values["max_hw_sectors_kb"],
                maxIntegritySegments := values["max_integrity_segments"],
                maxSectorsKb := values["max_sectors_kb"])
    {
      var n;
      n := reader.FetchNumber(dir, "zone_write_granularity", Unsigned, values);
      data := data.(zoneWriteGranularity := n);
      n := reader.FetchNumber(dir, "zoned", Unsigned, values);
      data := data.(zoned := n);
      n := reader.FetchNumber(dir, "read_ahead_kb", Unsigned, values);
      data := data.(readAheadKb := n);
      n := reader.FetchNumber(dir, "write_same_max_bytes", Unsigned, values);
      data := data.(writeSameMaxBytes := n);
      n := reader.FetchNumber(dir, "write_zeroes_max_bytes", Unsigned, values);
      data := data.(writeZeroesMaxBytes := n);
      n := reader.FetchNumber(dir, "max_discard_segments", Unsigned, values);
      data := data.(maxDiscardSegments := n);
      n := reader.FetchNumber(dir, "max_hw_sectors_kb", Unsigned, values);
      data := data.(maxHwSectorsKb := n);
      n := reader.FetchNumber(dir, "max_integrity_segments", Unsigned, values);
      data := data.(maxIntegritySegments := n);
      n := reader.FetchNumber(dir, "max_sectors_kb", Unsigned, values);
      data := data.(maxSectorsKb := n);
    }

    /** The reads up to the flags. */
    method ReadFlags(dir: Directory, reader: AttributeReader, ghost values: map<string, nat>)
      requires reader.Valid() && reader.buf.Length == QUEUE_BUF
      requires AreNumbers(values, dir, Unsigned, QUEUE_BUF) && HasQueueFiles(values)
      modifies this, reader.buf, reader.stats.line
      ensures data == old(data).(
                maxSegments := values["max_segments"],
                maxSegmentSize := values["max_segment_size"], rqAffinity := values["rq_affinity"],
                stableWrites := values["stable_writes"], rotational := values["rotational"],
                addRandom := values["add_random"],
                virtBoundaryMask := values["virt_boundary_mask"],
                wbtLatUsec := values["wbt_lat_usec"], dax := values["dax"])
    {
      var n;
      n := reader.FetchNumber(dir, "max_segments", Unsigned, values);
      data := data.(maxSegments := n);
      n := reader.FetchNumber(dir, "max_segment_size", Unsigned, values);
      data := data.(maxSegmentSize := n);
      n := reader.FetchNumber(dir, "rq_affinity", Unsigned, values);
      data := data.(rqAffinity := n);
      n := reader.FetchNumber(dir, "stable_writes", Unsigned, values);
      data := data.(stableWrites := n);
      n := reader.FetchNumber(dir, "rotational", Unsigned, values);
      data := data.(rotational := n);
      n := reader.FetchNumber(dir, "add_random", Unsigned, values);
      data := data.(addRandom := n);
      n := reader.FetchNumber(dir, "virt_boundary_mask", Unsigned, values);
      data := data.(virtBoundaryMask := n);
      n := reader.FetchNumber(dir, "wbt_lat_usec", Unsigned, values);
      data := data.(wbtLatUsec := n);
      n := reader.FetchNumber(dir, "dax", Unsigned, values);
      data := data.(dax := n);
    }

    /** The two reads that copy a text. */
    method ReadTexts(dir: Directory, reader: AttributeReader)
      requires reader.Valid() && reader.buf.Length == QUEUE_BUF
      requires Present(dir, "write_cache") && Present(dir, "scheduler")
      modifies this, reader.buf, reader.stats.line
      ensures data == old(data).(
                writeCache := BufferText(dir, "write_cache", QUEUE_BUF),
                scheduler := BufferText(dir, "scheduler", QUEUE_BUF))
    {
      reader.FetchString(dir, "write_cache");
      data := data.(writeCache := CStr(reader.buf[..]));
      reader.FetchString(dir, "scheduler");
      data := data.(scheduler := CStr(reader.buf[..]));
    }

    /** `get_disk_queue_data`: in the end every field that is read holds the value of its own file,
        although all of them went through the same two buffers, and every other field is as before. */
    method GetDiskQueueData(dir: Directory, reader: AttributeReader)
      requires reader.Valid() && reader.buf.Length == QUEUE_BUF
      requires HasQueueFiles(Numbers(dir, Unsigned, QUEUE_BUF))
      requires Present(dir, "write_cache") && Present(dir, "scheduler")
      modifies this, reader.buf, reader.stats.line
      ensures data.chunkSectors == Number(dir, "chunk_sectors", Unsigned, QUEUE_BUF)
      ensures data.fua == Number(dir, "fua", Unsigned, QUEUE_BUF)
      ensures data.hwSectorSize == Number(dir, "hw_sector_size", Unsigned, QUEUE_BUF)
      ensures data.ioPoll == Number(dir, "io_poll", Unsigned, QUEUE_BUF)
      ensures data.ioPollDelay == Number(dir, "io_poll_delay", Unsigned, QUEUE_BUF)
      ensures data.iostats == Number(dir, "iostats", Unsigned, QUEUE_BUF)
      ensures data.ioTimeout == Number(dir, "io_timeout", Unsigned, QUEUE_BUF)
      ensures data.physicalBlockSize == Number(dir, "physical_block_size", Unsigned, QUEUE_BUF)
      ensures data.logicalBlockSize == Number(dir, "logical_block_size", Unsigned, QUEUE_BUF)
      ensures data.minimumIoSize == Number(dir, "minimum_io_size", Unsigned, QUEUE_BUF)
      ensures data.optimalIoSize == Number(dir, "optimal_io_size", Unsigned, QUEUE_BUF)
      ensures data.discardZeroesData == Number(dir, "discard_zeroes_data", Unsigned, QUEUE_BUF)
      ensures data.discardMaxHwBytes == Number(dir, "discard_max_hw_bytes", Unsigned, QUEUE_BUF)
      ensures data.discardMaxBytes == Number(dir, "discard_max_bytes", Unsigned, QUEUE_BUF)
      ensures data.nrZones == Number(dir, "nr_zones", Unsigned, QUEUE_BUF)
      ensures data.nomerges == Number(dir, "nomerges", Unsigned, QUEUE_BUF)
      ensures data.nrRequests == Number(dir, "nr_requests", Unsigned, QUEUE_BUF)
      ensures data.zoneAppendMaxBytes == Number(dir, "zone_append_max_bytes", Unsigned, QUEUE_BUF)
      ensures data.zoneWriteGranularity == Number(dir, "zone_write_granularity", Unsigned, QUEUE_BUF)
      ensures data.zoned == Number(dir, "zoned", Unsigned, QUEUE_BUF)
      ensures data.readAheadKb == Number(dir, "read_ahead_kb", Unsigned, QUEUE_BUF)
      ensures data.writeSameMaxBytes == Number(dir, "write_same_max_bytes", Unsigned, QUEUE_BUF)
      ensures data.writeZeroesMaxBytes == Number(dir, "write_zeroes_max_bytes", Unsigned, QUEUE_BUF)
      ensures data.maxDiscardSegments == Number(dir, "max_discard_segments", Unsigned, QUEUE_BUF)
      ensures data.maxHwSectorsKb == Number(dir, "max_hw_sectors_kb", Unsigned, QUEUE_BUF)
      ensures data.maxIntegritySegments == Number(dir, "max_integrity_segments", Unsigned, QUEUE_BUF)
      ensures data.maxSectorsKb == Number(dir, "max_sectors_kb", Unsigned, QUEUE_BUF)
      ensures data.maxSegments == Number(dir, "max_segments", Unsigned, QUEUE_BUF)
      ensures data.maxSegmentSize == Number(dir, "max_segment_size", Unsigned, QUEUE_BUF)
      ensures data.rqAffinity == Number(dir, "rq_affinity", Unsigned, QUEUE_BUF)
      ensures data.stableWrites == Number(dir, "stable_writes", Unsigned, QUEUE_BUF)
      ensures data.rotational == Number(dir, "rotational", Unsigned, QUEUE_BUF)
      ensures data.addRandom == Number(dir, "add_random", Unsigned, QUEUE_BUF)
      ensures data.virtBoundaryMask == Number(dir, "virt_boundary_mask", Unsigned, QUEUE_BUF)
      ensures data.wbtLatUsec == Number(dir, "wbt_lat_usec", Unsigned, QUEUE_BUF)
      ensures data.dax == Number(dir, "dax", Unsigned, QUEUE_BUF)
      ensures data.writeCache == BufferText(dir, "write_cache", QUEUE_BUF)
      ensures data.scheduler == BufferText(dir, "scheduler", QUEUE_BUF)
      ensures data.discardGranularity == old(data.discardGranularity)
      ensures data.asyncDepth == old(data.asyncDepth)
      ensures data.fifoBatch == old(data.fifoBatch)
      ensures data.frontMerges == old(data.frontMerges)
      ensures data.readExpire == old(data.readExpire)
      ensures data.writeExpire == old(data.writeExpire)
      ensures data.writesStarved == old(data.writesStarved)
    {
      ghost var values := Numbers(dir, Unsigned, QUEUE_BUF);
      ReadIo(dir, reader, values);
      ReadLimits(dir, reader, values);
      ReadTransfers(dir, reader, values);
      ReadFlags(dir, reader, values);
      ReadTexts(dir, reader);
    }

    /** The call for a directory as the kernel prints it: every field holds the number in the file of
        its own name, modulo 2^64. */
    method GetPrintedQueueData(dir: Directory, reader: AttributeReader, ghost numbers: map<string, int>)
      requires reader.Valid() && reader.buf.Length == QUEUE_BUF
      requires HasQueueFiles(numbers) && PrintedDecimal(dir, numbers)
      requires Present(dir, "write_cache") && Present(dir, "scheduler")
      modifies this, reader.buf, reader.stats.line
      ensures data.chunkSectors == numbers["chunk_sectors"] % 0x1_0000_0000_0000_0000
      ensures data.fua == numbers["fua"] % 0x1_0000_0000_0000_0000
      ensures data.hwSectorSize == numbers["hw_sector_size"] % 0x1_0000_0000_0000_0000
      ensures data.ioPoll == numbers["io_poll"] % 0x1_0000_0000_0000_0000
      ensures data.ioPollDelay == numbers["io_poll_delay"] % 0x1_0000_0000_0000_0000
      ensures data.iostats == numbers["iostats"] % 0x1_0000_0000_0000_0000
      ensures data.ioTimeout == numbers["io_timeout"] % 0x1_0000_0000_0000_0000
      ensures data.physicalBlockSize == numbers["physical_block_size"] % 0x1_0000_0000_0000_0000
      ensures data.logicalBlockSize == numbers["logical_block_size"] % 0x1_0000_0000_0000_0000
      ensures data.minimumIoSize == numbers["minimum_io_size"] % 0x1_0000_0000_0000_0000
      ensures data.optimalIoSize == numbers["optimal_io_size"] % 0x1_0000_0000_0000_0000
      ensures data.discardZeroesData == numbers["discard_zeroes_data"] % 0x1_0000_0000_0000_0000
      ensures data.discardMaxHwBytes == numbers["discard_max_hw_bytes"] % 0x1_0000_0000_0000_0000
      ensures data.discardMaxBytes == numbers["discard_max_bytes"] % 0x1_0000_0000_0000_0000
      ensures data.nrZones == numbers["nr_zones"] % 0x1_0000_0000_0000_0000
      ensures data.nomerges == numbers["nomerges"] % 0x1_0000_0000_0000_0000
      ensures data.nrRequests == numbers["nr_requests"] % 0x1_0000_0000_0000_0000
      ensures data.zoneAppendMaxBytes == numbers["zone_append_max_bytes"] % 0x1_0000_0000_0000_0000
      ensures data.zoneWriteGranularity == numbers["zone_write_granularity"] % 0x1_0000_0000_0000_0000
      ensures data.zoned == numbers["zoned"] % 0x1_0000_0000_0000_0000
      ensures data.readAheadKb == numbers["read_ahead_kb"] % 0x1_0000_0000_0000_0000
      ensures data.writeSameMaxBytes == numbers["write_same_max_bytes"] % 0x1_0000_0000_0000_0000
      ensures data.writeZeroesMaxBytes == numbers["write_zeroes_max_bytes"] % 0x1_0000_0000_0000_0000
      ensures data.maxDiscardSegments == numbers["max_discard_segments"] % 0x1_0000_0000_0000_0000
      ensures data.maxHwSectorsKb == numbers["max_hw_sectors_kb"] % 0x1_0000_0000_0000_0000
      ensures data.maxIntegritySegments == numbers["max_integrity_segments"] % 0x1_0000_0000_0000_0000
      ensures data.maxSectorsKb == numbers["max_sectors_kb"] % 0x1_0000_0000_0000_0000
      ensures data.maxSegments == numbers["max_segments"] % 0x1_0000_0000_0000_0000
      ensures data.maxSegmentSize == numbers["max_segment_size"] % 0x1_0000_0000_0000_0000
      ensures data.rqAffinity == numbers["rq_affinity"] % 0x1_0000_0000_0000_0000
      ensures data.stableWrites == numbers["stable_writes"] % 0x1_0000_0000_0000_0000
      ensures data.rotational == numbers["rotational"] % 0x1_0000_0000_0000_0000
      ensures data.addRandom == numbers["add_random"] % 0x1_0000_0000_0000_0000
      ensures data.virtBoundaryMask == numbers["virt_boundary_mask"] % 0x1_0000_0000_0000_0000
      ensures data.wbtLatUsec == numbers["wbt_lat_usec"] % 0x1_0000_0000_0000_0000
      ensures data.dax == numbers["dax"] % 0x1_0000_0000_0000_0000
    {
      forall name | name in numbers
        ensures name in Numbers(dir, Unsigned, QUEUE_BUF)
        ensures Number(dir, name, Unsigned, QUEUE_BUF) == numbers[name] % 0x1_0000_0000_0000_0000
      {
        PrintedNumberArrives(dir, numbers, name);
      }
      GetDiskQueueData(dir, reader);
    }
  }

  // ----- the statistics directory of a Fibre Channel port

  /** The files that `get_fc_dev_stats` reads counters from. */
  predicate HasCounterFiles<V>(values: map<string, V>) {
    && "lip_count" in values && "tx_frames" in values && "tx_words" in values
    && "rx_frames" in values && "rx_words" in values && "cn_sig_alarm" in values
    && "cn_sig_warn" in values && "error_frames" in values && "dumped_frames" in values
    && "invalid_crc_count" in values && "invalid_tx_word_count" in values
    && "link_failure_count" in values && "loss_of_signal_count" in values
    && "loss_of_sync_count" in values && "nos_count" in values && "fpin_cn" in values
    && "fpin_cn_credit_stall" in values && "fpin_cn_device_specific" in values
    && "fpin_cn_lost_credit" in values && "fpin_cn_oversubscription" in values
    && "fpin_li" in values && "fpin_li_device_specific" in values
    && "fpin_li_failure_unknown" in values && "fpin_li_invalid_crc_count" in values
    && "fpin_li_invalid_tx_word_count" in values && "fpin_li_link_failure_count" in values
    && "fpin_li_loss_of_signals_count" in values && "fpin_li_loss_of_sync_count" in values
    && "fpin_li_prim_seq_err_count" in values && "fpin_dn" in values
    && "fpin_dn_device_specific" in values && "fpin_dn_timeout" in values
    && "fpin_dn_unable_to_route" in values && "fpin_dn_unknown" in values
  }

  /** `struct fc_host_statistics`, as far as it is read. */
  datatype FcHostStatistics = FcHostStatistics(
    lipCount: nat, txFrames: nat, txWords: nat, rxFrames: nat, rxWords: nat, cnSigAlarm: nat,
    cnSigWarn: nat, errorFrames: nat, dumpedFrames: nat, invalidCrcCount: nat,
    invalidTxWordCount: nat, linkFailureCount: nat, lossOfSignalCount: nat, lossOfSyncCount: nat,
    nosCount: nat, fpinCn: nat, fpinCnCreditStall: nat, fpinCnDeviceSpecific: nat,
    fpinCnLostCredit: nat, fpinCnOversubscription: nat, fpinLi: nat, fpinLiDeviceSpecific: nat,
    fpinLiFailureUnknown: nat, fpinLiInvalidCrcCount: nat, fpinLiInvalidTxWordCount: nat,
    fpinLiLinkFailureCount: nat, fpinLiLossOfSignalsCount: nat, fpinLiLossOfSyncCount: nat,
    fpinLiPrimSeqErrCount: nat, fpinDn: nat, fpinDnDeviceSpecific: nat, fpinDnTimeout: nat,
    fpinDnUnableToRoute: nat, fpinDnUnknown: nat)

  /** The record of a Fibre Channel port: its name and its statistics. */
  class FcDevice {
    var hostName: string
    var data: FcHostStatistics

    constructor (hostName: string, data: FcHostStatistics)
    {
      this.hostName, this.data := hostName, data;
    }

    /** Frames and words. */
    method ReadTraffic(dir: Directory, reader: AttributeReader, ghost values: map<string, nat>)
      requires reader.Valid() && reader.buf.Length == FC_BUF
      requires AreNumbers(values, dir, Signed, FC_BUF) && HasCounterFiles(values)
      modifies this`data, reader.buf, reader.stats.line
      ensures data == old(data).(
                lipCount := values["lip_count"], txFrames := values["tx_frames"],
                txWords := values["tx_words"], rxFrames := values["rx_frames"],
                rxWords := values["rx_words"], cnSigAlarm := values["cn_sig_alarm"],
                cnSigWarn := values["cn_sig_warn"])
    {
      var n;
      n := reader.FetchNumber(dir, "lip_count", Signed, values);
      data := data.(lipCount := n);
      n := reader.FetchNumber(dir, "tx_frames", Signed, values);
      data := data.(txFrames := n);
      n := reader.FetchNumber(dir, "tx_words", Signed, values);
      data := data.(txWords := n);
      n := reader.FetchNumber(dir, "rx_frames", Signed, values);
      data := data.(rxFrames := n);
      n := reader.FetchNumber(dir, "rx_words", Signed, values);
      data := data.(rxWords := n);
      n := reader.FetchNumber(dir, "cn_sig_alarm", Signed, values);
      data := data.(cnSigAlarm := n);
      n := reader.FetchNumber(dir, "cn_sig_warn", Signed, values);
      data := data.(cnSigWarn := n);
    }

    /** Errors and losses. */
    method ReadErrors(dir: Directory, reader: AttributeReader, ghost values: map<string, nat>)
      requires reader.Valid() && reader.buf.Length == FC_BUF
      requires AreNumbers(values, dir, Signed, FC_BUF) && HasCounterFiles(values)
      modifies this`data, reader.buf, reader.stats.line
      ensures data == old(data).(
                errorFrames := values["error_frames"], dumpedFrames := values["dumped_frames"],
                invalidCrcCount := values["invalid_crc_count"],
                invalidTxWordCount := values["invalid_tx_word_count"],
                linkFailureCount := values["link_failure_count"],
                lossOfSignalCount := values["loss_of_signal_count"],
                lossOfSyncCount := values["loss_of_sync_count"], nosCount := values["nos_count"])
    {
      var n;
      n := reader.FetchNumber(dir, "error_frames", Signed, values);
      data := data.(errorFrames := n);
      n := reader.FetchNumber(dir, "dumped_frames", Signed, values);
      data := data.(dumpedFrames := n);
      n := reader.FetchNumber(dir, "invalid_crc_count", Signed, values);
      data := data.(invalidCrcCount := n);
      n := reader.FetchNumber(dir, "invalid_tx_word_count", Signed, values);
      data := data.(invalidTxWordCount := n);
      n := reader.FetchNumber(dir, "link_failure_count", Signed, values);
      data := data.(linkFailureCount := n);
      n := reader.FetchNumber(dir, "loss_of_signal_count", Signed, values);
      data := data.(lossOfSignalCount := n);
      n := reader.FetchNumber(dir, "loss_of_sync_count", Signed, values);
      data := data.(lossOfSyncCount := n);
      n := reader.FetchNumber(dir, "nos_count", Signed, values);
      data := data.(nosCount := n);
    }

    /** Congestion notifications. */
    method ReadCongestion(dir: Directory, reader: AttributeReader, ghost values: map<string, nat>)
      requires reader.Valid() && reader.buf.Length == FC_BUF
      requires AreNumbers(values, dir, Signed, FC_BUF) && HasCounterFiles(values)
      modifies this`data, reader.buf, reader.stats.line
      ensures data == old(data).(
                fpinCn := values["fpin_cn"], fpinCnCreditStall := values["fpin_cn_credit_stall"],
                fpinCnDeviceSpecific := values["fpin_cn_device_specific"],
                fpinCnLostCredit := values["fpin_cn_lost_credit"],
                fpinCnOversubscription := values["fpin_cn_oversubscription"])
    {
      var n;
      n := reader.FetchNumber(dir, "fpin_cn", Signed, values);
      data := data.(fpinCn := n);
      n := reader.FetchNumber(dir, "fpin_cn_credit_stall", Signed, values);
      data := data.(fpinCnCreditStall := n);
      n := reader.FetchNumber(dir, "fpin_cn_device_specific", Signed, values);
      data := data.(fpinCnDeviceSpecific := n);
      n := reader.FetchNumber(dir, "fpin_cn_lost_credit", Signed, values);
      data := data.(fpinCnLostCredit := n);
      n := reader.FetchNumber(dir, "fpin_cn_oversubscription", Signed, values);
      data := data.(fpinCnOversubscription := n);
    }

    /** Link integrity notifications. */
    method ReadIntegrity(dir: Directory, reader: AttributeReader, ghost values: map<string, nat>)
      requires reader.Valid() && reader.buf.Length == FC_BUF
      requires AreNumbers(values, dir, Signed, FC_BUF) && HasCounterFiles(values)
      modifies this`data, reader.buf, reader.stats.line
      ensures data == old(data).(
                fpinLi := values["fpin_li"],
                fpinLiDeviceSpecific := values["fpin_li_device_specific"],
                fpinLiFailureUnknown := values["fpin_li_failure_unknown"],
                fpinLiInvalidCrcCount := values["fpin_li_invalid_crc_count"],
                fpinLiInvalidTxWordCount := values["fpin_li_invalid_tx_word_count"],
                fpinLiLinkFailureCount := values["fpin_li_link_failure_count"],
                fpinLiLossOfSignalsCount := values["fpin_li_loss_of_signals_count"],
                fpinLiLossOfSyncCount := values["fpin_li_loss_of_sync_count"],
                fpinLiPrimSeqErrCount := values["fpin_li_prim_seq_err_count"])
    {
      var n;
      n := reader.FetchNumber(dir, "fpin_li", Signed, values);
      data := data.(fpinLi := n);
      n := reader.FetchNumber(dir, "fpin_li_device_specific", Signed, values);
      data := data.(fpinLiDeviceSpecific := n);
      n := reader.FetchNumber(dir, "fpin_li_failure_unknown", Signed, values);
      data := data.(fpinLiFailureUnknown := n);
      n := reader.FetchNumber(dir, "fpin_li_invalid_crc_count", Signed, values);
      data := data.(fpinLiInvalidCrcCount := n);
      n := reader.FetchNumber(dir, "fpin_li_invalid_tx_word_count", Signed, values);
      data := data.(fpinLiInvalidTxWordCount := n);
      n := reader.FetchNumber(dir, "fpin_li_link_failure_count", Signed, values);
      data := data.(fpinLiLinkFailureCount := n);
      n := reader.FetchNumber(dir, "fpin_li_loss_of_signals_count", Signed, values);
      data := data.(fpinLiLossOfSignalsCount := n);
      n := reader.FetchNumber(dir, "fpin_li_loss_of_sync_count", Signed, values);
      data := data.(fpinLiLossOfSyncCount := n);
      n := reader.FetchNumber(dir, "fpin_li_prim_seq_err_count", Signed, values);
      data := data.(fpinLiPrimSeqErrCount := n);
    }

    /** Delivery notifications. */
    method ReadDelivery(dir: Directory, reader: AttributeReader, ghost values: map<string, nat>)
      requires reader.Valid() && reader.buf.Length == FC_BUF
      requires AreNumbers(values, dir, Signed, FC_BUF) && HasCounterFiles(values)
      modifies this`data, reader.buf, reader.stats.line
      ensures data == old(data).(
                fpinDn := values["fpin_dn"],
                fpinDnDeviceSpecific := values["fpin_dn_device_specific"],
                fpinDnTimeout := values["fpin_dn_timeout"],
                fpinDnUnableToRoute := values["fpin_dn_unable_to_route"],
                fpinDnUnknown := values["fpin_dn_unknown"])
    {
      var n;
      n := reader.FetchNumber(dir, "fpin_dn", Signed, values);
      data := data.(fpinDn := n);
      n := reader.FetchNumber(dir, "fpin_dn_device_specific", Signed, values);
      data := data.(fpinDnDeviceSpecific := n);
      n := reader.FetchNumber(dir, "fpin_dn_timeout", Signed, values);
      data := data.(fpinDnTimeout := n);
      n := reader.FetchNumber(dir, "fpin_dn_unable_to_route", Signed, values);
      data := data.(fpinDnUnableToRoute := n);
      n := reader.FetchNumber(dir, "fpin_dn_unknown", Signed, values);
      data := data.(fpinDnUnknown := n);
    }

    /** `get_fc_dev_stats`: the same with `strtol` instead of `strtoull` and a buffer of 64. */
    method GetFcDevStats(deviceName: string, dir: Directory, reader: AttributeReader)
      requires reader.Valid() && reader.buf.Length == FC_BUF
      requires HasCounterFiles(Numbers(dir, Signed, FC_BUF))
      modifies this, reader.buf, reader.stats.line
      ensures hostName == deviceName
      ensures data.lipCount == Number(dir, "lip_count", Signed, FC_BUF)
      ensures data.txFrames == Number(dir, "tx_frames", Signed, FC_BUF)
      ensures data.txWords == Number(dir, "tx_words", Signed, FC_BUF)
      ensures data.rxFrames == Number(dir, "rx_frames", Signed, FC_BUF)
      ensures data.rxWords == Number(dir, "rx_words", Signed, FC_BUF)
      ensures data.cnSigAlarm == Number(dir, "cn_sig_alarm", Signed, FC_BUF)
      ensures data.cnSigWarn == Number(dir, "cn_sig_warn", Signed, FC_BUF)
      ensures data.errorFrames == Number(dir, "error_frames", Signed, FC_BUF)
      ensures data.dumpedFrames == Number(dir, "dumped_frames", Signed, FC_BUF)
      ensures data.invalidCrcCount == Number(dir, "invalid_crc_count", Signed, FC_BUF)
      ensures data.invalidTxWordCount == Number(dir, "invalid_tx_word_count", Signed, FC_BUF)
      ensures data.linkFailureCount == Number(dir, "link_failure_count", Signed, FC_BUF)
      ensures data.lossOfSignalCount == Number(dir, "loss_of_signal_count", Signed, FC_BUF)
      ensures data.lossOfSyncCount == Number(dir, "loss_of_sync_count", Signed, FC_BUF)
      ensures data.nosCount == Number(dir, "nos_count", Signed, FC_BUF)
      ensures data.fpinCn == Number(dir, "fpin_cn", Signed, FC_BUF)
      ensures data.fpinCnCreditStall == Number(dir, "fpin_cn_credit_stall", Signed, FC_BUF)
      ensures data.fpinCnDeviceSpecific == Number(dir, "fpin_cn_device_specific", Signed, FC_BUF)
      ensures data.fpinCnLostCredit == Number(dir, "fpin_cn_lost_credit", Signed, FC_BUF)
      ensures data.fpinCnOversubscription == Number(dir, "fpin_cn_oversubscription", Signed, FC_BUF)
      ensures data.fpinLi == Number(dir, "fpin_li", Signed, FC_BUF)
      ensures data.fpinLiDeviceSpecific == Number(dir, "fpin_li_device_specific", Signed, FC_BUF)
      ensures data.fpinLiFailureUnknown == Number(dir, "fpin_li_failure_unknown", Signed, FC_BUF)
      ensures data.fpinLiInvalidCrcCount == Number(dir, "fpin_li_invalid_crc_count", Signed, FC_BUF)
      ensures data.fpinLiInvalidTxWordCount == Number(dir, "fpin_li_invalid_tx_word_count", Signed, FC_BUF)
      ensures data.fpinLiLinkFailureCount == Number(dir, "fpin_li_link_failure_count", Signed, FC_BUF)
      ensures data.fpinLiLossOfSignalsCount == Number(dir, "fpin_li_loss_of_signals_count", Signed, FC_BUF)
      ensures data.fpinLiLossOfSyncCount == Number(dir, "fpin_li_loss_of_sync_count", Signed, FC_BUF)
      ensures data.fpinLiPrimSeqErrCount == Number(dir, "fpin_li_prim_seq_err_count", Signed, FC_BUF)
      ensures data.fpinDn == Number(dir, "fpin_dn", Signed, FC_BUF)
      ensures data.fpinDnDeviceSpecific == Number(dir, "fpin_dn_device_specific", Signed, FC_BUF)
      ensures data.fpinDnTimeout == Number(dir, "fpin_dn_timeout", Signed, FC_BUF)
      ensures data.fpinDnUnableToRoute == Number(dir, "fpin_dn_unable_to_route", Signed, FC_BUF)
      ensures data.fpinDnUnknown == Number(dir, "fpin_dn_unknown", Signed, FC_BUF)
    {
      ghost var values := Numbers(dir, Signed, FC_BUF);
      hostName := deviceName;
      ReadTraffic(dir, reader, values);
      ReadErrors(dir, reader, values);
      ReadCongestion(dir, reader, values);
      ReadIntegrity(dir, reader, values);
      ReadDelivery(dir, reader, values);
    }

    /** The call for a directory as the kernel prints it: every field holds the counter in the file of
        its own name, cut to 2^63 - 1. */
    method GetPrintedDevStats(deviceName: string, dir: Directory, reader: AttributeReader,
                              ghost numbers: map<string, nat>)
      requires reader.Valid() && reader.buf.Length == FC_BUF
      requires HasCounterFiles(numbers) && PrintedHex(dir, numbers)
      modifies this, reader.buf, reader.stats.line
      ensures hostName == deviceName
      ensures data.lipCount == Min(numbers["lip_count"], 0x7FFF_FFFF_FFFF_FFFF)
      ensures data.txFrames == Min(numbers["tx_frames"], 0x7FFF_FFFF_FFFF_FFFF)
      ensures data.txWords == Min(numbers["tx_words"], 0x7FFF_FFFF_FFFF_FFFF)
      ensures data.rxFrames == Min(numbers["rx_frames"], 0x7FFF_FFFF_FFFF_FFFF)
      ensures data.rxWords == Min(numbers["rx_words"], 0x7FFF_FFFF_FFFF_FFFF)
      ensures data.cnSigAlarm == Min(numbers["cn_sig_alarm"], 0x7FFF_FFFF_FFFF_FFFF)
      ensures data.cnSigWarn == Min(numbers["cn_sig_warn"], 0x7FFF_FFFF_FFFF_FFFF)
      ensures data.errorFrames == Min(numbers["error_frames"], 0x7FFF_FFFF_FFFF_FFFF)
      ensures data.dumpedFrames == Min(numbers["dumped_frames"], 0x7FFF_FFFF_FFFF_FFFF)
      ensures data.invalidCrcCount == Min(numbers["invalid_crc_count"], 0x7FFF_FFFF_FFFF_FFFF)
      ensures data.invalidTxWordCount == Min(numbers["invalid_tx_word_count"], 0x7FFF_FFFF_FFFF_FFFF)
      ensures data.linkFailureCount == Min(numbers["link_failure_count"], 0x7FFF_FFFF_FFFF_FFFF)
      ensures data.lossOfSignalCount == Min(numbers["loss_of_signal_count"], 0x7FFF_FFFF_FFFF_FFFF)
      ensures data.lossOfSyncCount == Min(numbers["loss_of_sync_count"], 0x7FFF_FFFF_FFFF_FFFF)
      ensures data.nosCount == Min(numbers["nos_count"], 0x7FFF_FFFF_FFFF_FFFF)
      ensures data.fpinCn == Min(numbers["fpin_cn"], 0x7FFF_FFFF_FFFF_FFFF)
      ensures data.fpinCnCreditStall == Min(numbers["fpin_cn_credit_stall"], 0x7FFF_FFFF_FFFF_FFFF)
      ensures data.fpinCnDeviceSpecific == Min(numbers["fpin_cn_device_specific"], 0x7FFF_FFFF_FFFF_FFFF)
      ensures data.fpinCnLostCredit == Min(numbers["fpin_cn_lost_credit"], 0x7FFF_FFFF_FFFF_FFFF)
      ensures data.fpinCnOversubscription == Min(numbers["fpin_cn_oversubscription"], 0x7FFF_FFFF_FFFF_FFFF)
      ensures data.fpinLi == Min(numbers["fpin_li"], 0x7FFF_FFFF_FFFF_FFFF)
      ensures data.fpinLiDeviceSpecific == Min(numbers["fpin_li_device_specific"], 0x7FFF_FFFF_FFFF_FFFF)
      ensures data.fpinLiFailureUnknown == Min(numbers["fpin_li_failure_unknown"], 0x7FFF_FFFF_FFFF_FFFF)
      ensures data.fpinLiInvalidCrcCount == Min(numbers["fpin_li_invalid_crc_count"], 0x7FFF_FFFF_FFFF_FFFF)
      ensures data.fpinLiInvalidTxWordCount == Min(numbers["fpin_li_invalid_tx_word_count"], 0x7FFF_FFFF_FFFF_FFFF)
      ensures data.fpinLiLinkFailureCount == Min(numbers["fpin_li_link_failure_count"], 0x7FFF_FFFF_FFFF_FFFF)
      ensures data.fpinLiLossOfSignalsCount == Min(numbers["fpin_li_loss_of_signals_count"], 0x7FFF_FFFF_FFFF_FFFF)
      ensures data.fpinLiLossOfSyncCount == Min(numbers["fpin_li_loss_of_sync_count"], 0x7FFF_FFFF_FFFF_FFFF)
      ensures data.fpinLiPrimSeqErrCount == Min(numbers["fpin_li_prim_seq_err_count"], 0x7FFF_FFFF_FFFF_FFFF)
      ensures data.fpinDn == Min(numbers["fpin_dn"], 0x7FFF_FFFF_FFFF_FFFF)
      ensures data.fpinDnDeviceSpecific == Min(numbers["fpin_dn_device_specific"], 0x7FFF_FFFF_FFFF_FFFF)
      ensures data.fpinDnTimeout == Min(numbers["fpin_dn_timeout"], 0x7FFF_FFFF_FFFF_FFFF)
      ensures data.fpinDnUnableToRoute == Min(numbers["fpin_dn_unable_to_route"], 0x7FFF_FFFF_FFFF_FFFF)
      ensures data.fpinDnUnknown == Min(numbers["fpin_dn_unknown"], 0x7FFF_FFFF_FFFF_FFFF)
    {
      forall name | name in numbers
        ensures name in Numbers(dir, Signed, FC_BUF)
        ensures Number(dir, name, Signed, FC_BUF) == Min(numbers[name], 0x7FFF_FFFF_FFFF_FFFF)
      {
        PrintedCounterArrives(dir, numbers, name);
      }
      GetFcDevStats(deviceName, dir, reader);
    }
  }
}
