/**
  Host, bus, target and LUN numbers: the printers of scsi_print.c, the scanner in
  `get_hctl_info` (scsi_sysfs_utils.c) and its loop over a directory.
 */
module HctlScan {
  import opened Numerals
  import opened CNumbers

  const ENODEV := 19

  datatype Option<T> = None | Some(value: T)

  datatype Hctl = Hctl(host: int, bus: int, target: int, lun: int)

  // ----- sscanf(s, "%d:%d:%d:%d", ...)

  /** `%d`: the value stored, and the text after it.  A number that is too large for `int`,
      for which the standard defines nothing, is read as a clamped `long` cut to 32 bits. */
  function ScanInt(s: string): Option<(int, string)> {
    match ReadNumber(s, false)
    case NoNumber => None
    case Parsed(negative, magnitude, rest) => Some((ToInt(ClampLong(negative, magnitude)), rest))
  }

  /** The values that at most `n` conversions separated by colons store. */
  function ScanInts(s: string, n: nat): (values: seq<int>)
    ensures |values| <= n
    decreases n, s
  {
    if n == 0 then []
    else
      match ScanInt(s)
      case None => []
      case Some((v, rest)) =>
        if rest != "" && rest[0] == ':' then [v] + ScanInts(rest[1..], n - 1) else [v]
  }

  /** The return value of `sscanf`: the number of stored values, or EOF when the text ends
      before the first conversion. */
  function ScanCount(s: string): int {
    if SkipSpace(s) == "" then -1 else |ScanInts(s, 4)|
  }

  /** Only the fields that were converted are overwritten. */
  function Store(values: seq<int>, before: Hctl): Hctl
    requires |values| <= 4
  {
    Hctl(if |values| > 0 then values[0] else before.host,
         if |values| > 1 then values[1] else before.bus,
         if |values| > 2 then values[2] else before.target,
         if |values| > 3 then values[3] else before.lun)
  }

  /** `%d:%d:%d:%d`, as the directories are named and as the printers write it in brackets. */
  function HctlText(h: Hctl): string {
    IntText(h.host) + (":" + (IntText(h.bus) + (":" + (IntText(h.target) + (":" + IntText(h.lun))))))
  }

  /** `printf("[%d:%d:%d:%d]", host, bus, target, lun)` */
  function BusIdText(h: Hctl): string {
    "[" + HctlText(h) + "]"
  }

  predicate InInt(n: int) {
    -INT_MAX - 1 <= n <= INT_MAX
  }

  predicate IntFields(h: Hctl) {
    InInt(h.host) && InInt(h.bus) && InInt(h.target) && InInt(h.lun)
  }

  lemma ScanIntOfText(n: int, rest: string)
    requires InInt(n) && EndsNumber(rest, 10)
    ensures ScanInt(IntText(n) + rest) == Some((n, rest))
  {
    ReadInt(n, rest, false);
  }

  lemma LowBits(x: int)
    ensures -0x8000_0000 <= ToInt(x) < 0x8000_0000 && (x - ToInt(x)) % 0x1_0000_0000 == 0
  {
  }

  /** An integer of any size is read as itself or as the end of the range of `long` next to it, and
      stored modulo 2^32. */
  lemma ScanIntOfAnyText(n: int, rest: string) returns (v: int)
    requires EndsNumber(rest, 10)
    ensures ScanInt(IntText(n) + rest) == Some((v, rest)) && -0x8000_0000 <= v < 0x8000_0000
    ensures var long: int := if n < -0x8000_0000_0000_0000 then -0x8000_0000_0000_0000
                             else if n < 0x8000_0000_0000_0000 then n else 0x7FFF_FFFF_FFFF_FFFF;
            (long - v) % 0x1_0000_0000 == 0
  {
    ReadInt(n, rest, false);
    var long := ClampLong(n < 0, if n < 0 then -n else n);
    LowBits(long);
    v := ToInt(long);
  }

  lemma ScanOneMore(n: int, rest: string, k: nat, values: seq<int>)
    requires InInt(n) && k > 0 && ScanInts(rest, k - 1) == values
    ensures ScanInts(IntText(n) + (":" + rest), k) == [n] + values
  {
    ScanIntOfText(n, ":" + rest);
    assert (":" + rest)[1..] == rest;
  }

  lemma ScanLast(n: int, rest: string)
    requires InInt(n) && EndsNumber(rest, 10)
    ensures ScanInts(IntText(n) + rest, 1) == [n]
  {
    ScanIntOfText(n, rest);
  }

  lemma ScanLastTwo(m: int, n: int, rest: string)
    requires InInt(m) && InInt(n) && EndsNumber(rest, 10)
    ensures ScanInts(IntText(m) + (":" + (IntText(n) + rest)), 2) == [m, n]
  {
    ScanLast(n, rest);
    ScanOneMore(m, IntText(n) + rest, 2, [n]);
  }

  lemma PrependTwo(m: int, n: int, t: string, values: seq<int>)
    requires InInt(m) && InInt(n) && ScanInts(t, 2) == values
    ensures ScanInts(IntText(m) + (":" + (IntText(n) + (":" + t))), 4) == [m, n] + values
  {
    ScanOneMore(n, t, 3, values);
    ScanOneMore(m, IntText(n) + (":" + t), 4, [n] + values);
    assert [m] + ([n] + values) == [m, n] + values;
  }

  lemma ScanFour(h: Hctl, rest: string)
    requires IntFields(h) && EndsNumber(rest, 10)
    ensures var t := IntText(h.target) + (":" + (IntText(h.lun) + rest));
            ScanInts(IntText(h.host) + (":" + (IntText(h.bus) + (":" + t))), 4) == [h.host, h.bus, h.target, h.lun]
  {
    var t := IntText(h.target) + (":" + (IntText(h.lun) + rest));
    ScanLastTwo(h.target, h.lun, rest);
    PrependTwo(h.host, h.bus, t, [h.target, h.lun]);
  }

  lemma TextThenRest(a: string, b: string, c: string, d: string, rest: string)
    ensures a + (":" + (b + (":" + (c + (":" + d))))) + rest == a + (":" + (b + (":" + (c + (":" + (d + rest))))))
  {
  }

  lemma ScanHctlText(h: Hctl, rest: string)
    requires IntFields(h) && EndsNumber(rest, 10)
    ensures ScanInts(HctlText(h) + rest, 4) == [h.host, h.bus, h.target, h.lun]
  {
    TextThenRest(IntText(h.host), IntText(h.bus), IntText(h.target), IntText(h.lun), rest);
    ScanFour(h, rest);
  }

  lemma NoNumberAt(s: string)
    requires s != "" && !IsSpace(s[0]) && !IsDigit(s[0], 10) && s[0] != '-' && s[0] != '+'
    ensures ScanInts(s, 4) == []
  {
  }

  /** The column that the tool prints: from behind the bracket it scans to the four numbers, from
      the bracket on to nothing. */
  lemma BusIdScans(h: Hctl, rest: string)
    requires IntFields(h)
    ensures ScanInts((BusIdText(h) + rest)[1..], 4) == [h.host, h.bus, h.target, h.lun]
    ensures ScanInts(BusIdText(h) + rest, 4) == []
  {
    var t := BusIdText(h) + rest;
    assert t[0] == '[' && t[1..] == HctlText(h) + ("]" + rest);
    ScanHctlText(h, "]" + rest);
    NoNumberAt(t);
  }

  /** `sscanf` counts what it stores; of a text of nothing but white space it makes EOF. */
  lemma CountIsNumberStored(s: string)
    ensures ScanCount(s) == if AllSpace(s) then -1 else |ScanInts(s, 4)|
  {
    var w := SpaceSkipped(s);
    if AllSpace(s) {
      SkipAllSpace(s, "");
      assert s + "" == s;
    }
  }

  /** Scanning what was printed gives back the four numbers, whatever follows the text (as
      long as it does not go on with a digit) and whatever the record held before. */
  lemma HctlRoundTrip(h: Hctl, before: Hctl, rest: string)
    requires IntFields(h) && EndsNumber(rest, 10)
    ensures ScanCount(HctlText(h) + rest) == 4
    ensures Store(ScanInts(HctlText(h) + rest, 4), before) == h
  {
    ScanHctlText(h, rest);
    CountIsNumberStored(HctlText(h) + rest);
  }

  /** `n` integers with a colon directly behind each but the last; anything may follow. */
  ghost predicate ColonForm(s: string, n: nat)
    decreases n
  {
    n == 0 || (if n == 1 then exists rest :: IntForm(s, rest)
               else exists rest :: IntForm(s, ":" + rest) && ColonForm(rest, n - 1))
  }

  predicate ColonFollows(s: string) {
    ScanInt(s).Some? && ScanInt(s).value.1 != "" && ScanInt(s).value.1[0] == ':'
  }

  lemma ScanColonStep(s: string, n: nat)
    requires n > 1
    ensures |ScanInts(s, n)| == n
            <==> ColonFollows(s) && |ScanInts(ScanInt(s).value.1[1..], n - 1)| == n - 1
  {
  }

  lemma ScanIsForm(s: string)
    ensures ScanInt(s).Some? ==> IntForm(s, ScanInt(s).value.1)
    ensures forall r :: IntForm(s, r) ==> ScanInt(s).Some? && ScanInt(s).value.1 == r
  {
    if ScanInt(s).Some? {
      ReadIffIntForm(s, ScanInt(s).value.1);
    }
    forall r | IntForm(s, r)
      ensures ScanInt(s).Some? && ScanInt(s).value.1 == r
    {
      ReadIffIntForm(s, r);
    }
  }

  lemma FormColonStep(s: string, n: nat)
    requires n > 1
    ensures ColonForm(s, n) <==> ColonFollows(s) && ColonForm(ScanInt(s).value.1[1..], n - 1)
  {
    ScanIsForm(s);
    if ColonForm(s, n) {
      var r :| IntForm(s, ":" + r) && ColonForm(r, n - 1);
      assert (":" + r)[1..] == r && (":" + r)[0] == ':';
    }
    if ColonFollows(s) {
      var rest := ScanInt(s).value.1;
      assert ":" + rest[1..] == rest;
    }
  }

  /** The scanner stores all `n` values exactly for texts of this form. */
  lemma {:induction false} ScanIffColonForm(s: string, n: nat)
    ensures |ScanInts(s, n)| == n <==> ColonForm(s, n)
    decreases n
  {
    if n == 1 {
      ScanIsForm(s);
    } else if n > 1 {
      ScanColonStep(s, n);
      FormColonStep(s, n);
      if ColonFollows(s) {
        ScanIffColonForm(ScanInt(s).value.1[1..], n - 1);
      }
    }
  }

  // ----- the loop over the directory

  datatype Dirent = Dirent(name: string, isDirectory: bool)

  /** The entry that ends the search. */
  predicate Complete(e: Dirent) {
    e.isDirectory && ScanCount(e.name) == 4
  }

  /** The position of the first complete entry, or the number of entries. */
  function FirstComplete(entries: seq<Dirent>): (k: nat)
    ensures k <= |entries|
    ensures k < |entries| ==> Complete(entries[k])
    ensures forall j :: 0 <= j < k ==> !Complete(entries[j])
  {
    if entries == [] || Complete(entries[0]) then 0 else 1 + FirstComplete(entries[1..])
  }

  lemma AtFirstComplete(entries: seq<Dirent>, i: nat)
    requires i < |entries| && i <= FirstComplete(entries)
    ensures if Complete(entries[i]) then FirstComplete(entries) == i else i < FirstComplete(entries)
  {
  }

  /** What the scans of all entries, none of them complete, leave in the record. */
  function LeftOver(entries: seq<Dirent>, before: Hctl): Hctl {
    if entries == [] then before
    else
      var n := |entries| - 1;
      var h := LeftOver(entries[..n], before);
      if entries[n].isDirectory then Store(ScanInts(entries[n].name, 4), h) else h
  }

  /** A complete scan overwrites every field: nothing of earlier partial scans remains. */
  lemma CompleteOverwrites(s: string, h: Hctl, h': Hctl)
    requires ScanCount(s) == 4
    ensures Store(ScanInts(s, 4), h) == Store(ScanInts(s, 4), h')
  {
  }

  function Field(h: Hctl, f: nat): int
    requires f < 4
  {
    [h.host, h.bus, h.target, h.lun][f]
  }

  /** The scan of this entry's name reaches the field number `f`. */
  predicate Reaches(e: Dirent, f: nat) {
    e.isDirectory && f < |ScanInts(e.name, 4)|
  }

  /** Each field holds what the last sub-directory that reached it left there, or what it held
      before. */
  lemma {:induction false} LeftOverField(entries: seq<Dirent>, before: Hctl, f: nat, j: nat)
    requires f < 4 && j <= |entries|
    requires forall i :: j < i < |entries| ==> !Reaches(entries[i], f)
    requires j < |entries| ==> Reaches(entries[j], f)
    requires j == |entries| ==> forall i :: 0 <= i < |entries| ==> !Reaches(entries[i], f)
    ensures Field(LeftOver(entries, before), f) ==
              if j < |entries| then ScanInts(entries[j].name, 4)[f] else Field(before, f)
  {
    var n := |entries| - 1;
    if n >= 0 && j != n {
      LeftOverField(entries[..n], before, f, if j < n then j else n);
    }
  }

  /** The current and the parent directory never end the search. */
  lemma DotsAreNotComplete(isDirectory: bool)
    ensures !Complete(Dirent(".", isDirectory)) && !Complete(Dirent("..", isDirectory))
  {
  }

  /** One round of the search: it ends here, with nothing left of earlier scans, or goes on. */
  lemma SearchStep(entries: seq<Dirent>, i: nat, before: Hctl)
    requires i < |entries| && i <= FirstComplete(entries)
    ensures var e, h := entries[i], LeftOver(entries[..i], before);
            if Complete(e) then
              i == FirstComplete(entries) && Store(ScanInts(e.name, 4), h) == Store(ScanInts(e.name, 4), before)
            else
              i < FirstComplete(entries)
              && LeftOver(entries[..i + 1], before) == if e.isDirectory then Store(ScanInts(e.name, 4), h) else h
  {
    AtFirstComplete(entries, i);
    if Complete(entries[i]) {
      CompleteOverwrites(entries[i].name, LeftOver(entries[..i], before), before);
    }
    assert entries[..i + 1][..i] == entries[..i];
  }

  class ScsiDeviceInfo {
    var host: int
    var bus: int
    var target: int
    var lun: int

    constructor (h: Hctl)
      ensures Value() == h
    {
      host, bus, target, lun := h.host, h.bus, h.target, h.lun;
    }

    function Value(): Hctl
      reads this
    {
      Hctl(host, bus, target, lun)
    }

    /** One `sscanf` into the fields. */
    method Scan(name: string) returns (count: int)
      modifies this
      ensures count == ScanCount(name)
      ensures Value() == Store(ScanInts(name, 4), old(Value()))
      ensures var v := ScanInts(name, 4);
              && host == (if |v| > 0 then v[0] else old(host)) && bus == (if |v| > 1 then v[1] else old(bus))
              && target == (if |v| > 2 then v[2] else old(target)) && lun == (if |v| > 3 then v[3] else old(lun))
    {
      var values := ScanInts(name, 4);
      if |values| > 0 {
        host := values[0];
      }
      if |values| > 1 {
        bus := values[1];
      }
      if |values| > 2 {
        target := values[2];
      }
      if |values| > 3 {
        lun := values[3];
      }
      count := ScanCount(name);
    }

    /** `get_hctl_info`, for the entries of the device's directory (None if there is no such
        directory).  It succeeds exactly when some sub-directory scans to four numbers, and
        then holds the numbers of the first such entry. */
    method GetHctlInfo(dir: Option<seq<Dirent>>) returns (err: int)
      modifies this
      ensures dir.None? ==> err == -19 && Value() == old(Value())
      ensures dir.Some? ==>
                var k := FirstComplete(dir.value);
                if k < |dir.value|
                then err == 0 && [host, bus, target, lun] == ScanInts(dir.value[k].name, 4)
                else err == -19 && Value() == LeftOver(dir.value, old(Value()))
    {
      if dir.None? {
        return -ENODEV;
      }
      var entries := dir.value;
      var i := 0;
      while i < |entries|
        invariant 0 <= i <= FirstComplete(entries)
        invariant Value() == LeftOver(entries[..i], old(Value()))
      {
        SearchStep(entries, i, old(Value()));
        if entries[i].isDirectory {
          var count := Scan(entries[i].name);
          if count == 4 {
            return 0;
          }
        }
        i := i + 1;
      }
      assert entries[..i] == entries;
      return -ENODEV;
    }
  }

  lemma CompleteIff(e: Dirent)
    ensures Complete(e) <==> e.isDirectory && ColonForm(e.name, 4)
  {
    ScanIffColonForm(e.name, 4);
    if |ScanInts(e.name, 4)| == 4 {
      CountIsNumberStored(e.name);
    }
  }

  /** The search succeeds exactly when some sub-directory has a name that starts with four
      integers joined by colons. */
  lemma FoundIff(entries: seq<Dirent>)
    ensures FirstComplete(entries) < |entries|
            <==> exists e :: e in entries && e.isDirectory && ColonForm(e.name, 4)
  {
    forall e: Dirent
      ensures Complete(e) <==> e.isDirectory && ColonForm(e.name, 4)
    {
      CompleteIff(e);
    }
  }

  /** If a sub-directory is named h:b:t:l and no entry before it is
      complete, the search ends there with that address, whatever partial scans came before. */
  lemma NamedEntryIsFound(entries: seq<Dirent>, k: nat, h: Hctl, before: Hctl)
    requires k < |entries| && IntFields(h) && entries[k] == Dirent(HctlText(h), true)
    requires forall j :: 0 <= j < k ==> !Complete(entries[j])
    ensures FirstComplete(entries) == k
    ensures ScanInts(entries[k].name, 4) == [h.host, h.bus, h.target, h.lun]
    ensures Store(ScanInts(entries[k].name, 4), before) == h
  {
    HctlRoundTrip(h, before, "");
    ScanHctlText(h, "");
    assert HctlText(h) + "" == HctlText(h);
  }
}
