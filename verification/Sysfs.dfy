/**
  Reading one attribute file: `open_sysfs_stats_file` and `load_sysfs_path` of
  scsi_sysfs_utils.c and `remove_newline` of scsi_print.c, on the character arrays that
  they write.

  A file is what the calls to the operating system see of it.  `fgets`, `strcspn` and
  `snprintf` follow ISO/IEC 9899:2011, sections 7.21.7.2, 7.24.5.3 and 7.21.6.5.
 */
module Sysfs {

  const EINVAL := 22
  const NUL: char := '\0'

  datatype File = Missing | Unreadable | Contents(bytes: string)

  // ----- C strings

  /** How many characters come before the first one that is NUL or `stop`. */
  function Reach(s: string, stop: char): (k: nat)
    ensures k <= |s|
    ensures forall i :: 0 <= i < k ==> s[i] != NUL && s[i] != stop
    ensures k < |s| ==> s[k] == NUL || s[k] == stop
  {
    if s == "" || s[0] == NUL || s[0] == stop then 0 else 1 + Reach(s[1..], stop)
  }

  /** The string in a character array: what comes before the first NUL. */
  function CStr(s: string): string {
    s[..Reach(s, NUL)]
  }

  /** What comes before the first NUL or newline. */
  function Line(s: string): string {
    s[..Reach(s, '\n')]
  }

  predicate Terminated(s: string) {
    NUL in s
  }

  lemma ReachIs(s: string, stop: char, k: nat)
    requires k <= |s| && (k < |s| ==> s[k] == NUL || s[k] == stop)
    requires forall i :: 0 <= i < k ==> s[i] != NUL && s[i] != stop
    ensures Reach(s, stop) == k
  {
  }

  /** Writing a NUL behind characters that are none ends the string there. */
  lemma EndAt(s: string, k: nat)
    requires k < |s| && forall i :: 0 <= i < k ==> s[i] != NUL
    ensures CStr(s[k := NUL]) == s[..k] && Terminated(s[k := NUL])
  {
    var t := s[k := NUL];
    assert t[k] == NUL;
    ReachIs(t, NUL, k);
  }

  function Min(a: nat, b: nat): nat {
    if a < b then a else b
  }

  // ----- library calls

  /** The characters that `fgets` takes for a buffer of `size`: at most `size - 1`, up to
      and including the first newline. */
  function FgetsChunk(bytes: string, size: nat): string
    requires size > 0
  {
    if bytes == "" || size == 1 then ""
    else if bytes[0] == '\n' then "\n"
    else [bytes[0]] + FgetsChunk(bytes[1..], size - 1)
  }

  lemma {:induction false} ChunkIsPrefix(bytes: string, size: nat)
    requires size > 0
    ensures var c := FgetsChunk(bytes, size);
            && |c| <= |bytes| && |c| < size && c == bytes[..|c|]
            && (bytes != "" && size > 1 ==> c != "")
            && (forall i :: 0 <= i < |c| - 1 ==> c[i] != '\n')
            && (|c| < |bytes| && |c| < size - 1 ==> c != "" && c[|c| - 1] == '\n')
    decreases size
  {
    if bytes == "" || size == 1 || bytes[0] == '\n' {
    } else {
      ChunkIsPrefix(bytes[1..], size - 1);
      var c, c' := FgetsChunk(bytes, size), FgetsChunk(bytes[1..], size - 1);
      assert c == [bytes[0]] + c';
      assert forall i :: 0 < i < |c| ==> c[i] == c'[i - 1];
    }
  }

  /** Cutting the chunk at its newline is cutting the file at its first newline, NUL or
      after `size - 1` characters. */
  lemma LineOfChunk(bytes: string, size: nat)
    requires size > 0
    ensures Line(FgetsChunk(bytes, size)) == Line(bytes[..Min(|bytes|, size - 1)])
  {
    ChunkIsPrefix(bytes, size);
    var c, b := FgetsChunk(bytes, size), bytes[..Min(|bytes|, size - 1)];
    var k := Reach(c, '\n');
    assert forall i :: 0 <= i < |c| ==> c[i] == b[i];
    ReachIs(b, '\n', k);
  }

  /** The characters of a file arriving in a buffer. */
  method CopyIn(buf: array<char>, bytes: string)
    requires |bytes| <= buf.Length
    modifies buf
    ensures buf[..] == bytes + old(buf[|bytes|..])
  {
    forall i | 0 <= i < |bytes| {
      buf[i] := bytes[i];
    }
  }

  /** `fgets(line, sizeof(line), fp)`; false stands for a null result.  What a failed read leaves
      in the line is not specified. */
  method Fgets(line: array<char>, file: File) returns (ok: bool)
    requires line.Length > 0
    modifies line
    ensures ok <==> file.Contents? && FgetsChunk(file.bytes, line.Length) != ""
    ensures ok ==> var c := FgetsChunk(file.bytes, line.Length);
                   |c| < line.Length && line[..|c|] == c && line[|c|] == NUL
    ensures !ok && !file.Unreadable? ==> line[..] == old(line[..])
  {
    if !file.Contents? {
      return false;
    }
    var c := FgetsChunk(file.bytes, line.Length);
    ChunkIsPrefix(file.bytes, line.Length);
    if c == "" {
      return false;
    }
    CopyIn(line, c);
    line[|c|] := NUL;
    return true;
  }

  /** `strcspn(s, "\n")` */
  method Strcspn(s: array<char>) returns (k: nat)
    requires Terminated(s[..])
    ensures k == Reach(s[..], '\n') && k < s.Length
  {
    k := 0;
    while s[k] != NUL && s[k] != '\n'
      invariant k <= Reach(s[..], '\n') && k < s.Length
      decreases s.Length - k
    {
      assert Reach(s[..], '\n') < s.Length;
      k := k + 1;
    }
  }

  /** `snprintf(buf, sizeof(buf), "%s", p)` */
  method SnprintfString(buf: array<char>, p: array<char>)
    requires buf != p && buf.Length > 0 && Terminated(p[..])
    modifies buf
    ensures CStr(buf[..]) == old(var t := CStr(p[..]); t[..Min(|t|, buf.Length - 1)])
    ensures Terminated(buf[..])
  {
    var k := 0;
    ghost var t := CStr(p[..]);
    while k < buf.Length - 1 && p[k] != NUL
      invariant k <= Min(|t|, buf.Length - 1) && |t| < p.Length
      invariant forall i :: 0 <= i < k ==> buf[i] != NUL
      invariant buf[..k] == t[..k]
      invariant p[..] == old(p[..])
    {
      buf[k] := p[k];
      k := k + 1;
    }
    ghost var before := buf[..];
    buf[k] := NUL;
    EndAt(before, k);
    assert buf[..] == before[k := NUL] && before[..k] == t[..k];
  }

  /** `snprintf(buf, sizeof(buf), p)`.  The text is the format, so it must be free of `%`. */
  method SnprintfText(buf: array<char>, p: array<char>)
    requires buf != p && buf.Length > 0 && Terminated(p[..])
    requires '%' !in CStr(p[..])
    modifies buf
    ensures CStr(buf[..]) == old(var t := CStr(p[..]); t[..Min(|t|, buf.Length - 1)])
    ensures Terminated(buf[..])
  {
    SnprintfString(buf, p);
  }

  // ----- remove_newline

  /** Cuts the string at its first newline, in place, and returns its length.  The copy of the
      string to itself that follows in the source has no effect. */
  method RemoveNewline(s: array<char>) returns (length: nat)
    requires Terminated(s[..])
    modifies s
    ensures CStr(s[..]) == Line(old(s[..]))
    ensures length == |CStr(s[..])|
    ensures Terminated(s[..])
  {
    ghost var before := s[..];
    var k := Strcspn(s);
    s[k] := NUL;
    length := k;
    EndAt(before, k);
    assert s[..] == before[k := NUL];
  }

  // ----- open_sysfs_stats_file

  const LINE_SIZE := 64

  /** What the function makes of a file: the first line, at most 63 characters of it. */
  function FirstLine(bytes: string): string {
    Line(bytes[..Min(|bytes|, LINE_SIZE - 1)])
  }

  /** Of an array that starts with a NUL-terminated text, only that text matters. */
  lemma StoredLine(s: string, c: string)
    requires |c| < |s| && s[..|c|] == c && s[|c|] == NUL
    ensures Line(s) == Line(c)
  {
  }

  /** The function with its static buffer, to which every non-null result points. */
  class StatsReader {
    const line: array<char>

    constructor ()
      ensures fresh(line) && line.Length == LINE_SIZE
    {
      line := new char[LINE_SIZE](_ => NUL);
    }

    method OpenSysfsStatsFile(file: File) returns (p: array?<char>)
      requires line.Length == LINE_SIZE
      modifies line
      ensures p == null <==> !file.Contents? || file.bytes == ""
      ensures p != null ==> p == line && CStr(line[..]) == FirstLine(file.bytes) && Terminated(line[..])
      ensures p == null && !file.Unreadable? ==> line[..] == old(line[..])
    {
      if file.Missing? {
        return null;
      }
      var ok := Fgets(line, file);
      if !ok {
        if file.Contents? {
          ChunkIsPrefix(file.bytes, LINE_SIZE);
        }
        return null;
      }
      var c := FgetsChunk(file.bytes, LINE_SIZE);
      assert line[..][|c|] == NUL;
      StoredLine(line[..], c);
      LineOfChunk(file.bytes, LINE_SIZE);
      var _ := RemoveNewline(line);
      return line;
    }
  }

  // ----- load_sysfs_path

  /** What `load_sysfs_path` makes of a file that fits: all of it, less one final newline, as
      far as the first NUL. */
  function WholeText(bytes: string): string {
    CStr(if bytes != "" && bytes[|bytes| - 1] == '\n' then bytes[..|bytes| - 1] else bytes)
  }

  lemma LoadedText(s: string, bytes: string)
    requires |bytes| < |s|
    requires var n := if bytes != "" && bytes[|bytes| - 1] == '\n' then |bytes| - 1 else |bytes|;
             s[..n] == bytes[..n] && s[n] == NUL
    ensures CStr(s) == WholeText(bytes)
  {
  }

  /** Ends the text that was read, less one final newline. */
  method EndText(buf: array<char>, count: nat, ghost bytes: string)
    requires count == |bytes| < buf.Length && buf[..count] == bytes
    modifies buf
    ensures CStr(buf[..]) == WholeText(bytes)
    ensures buf[count + 1..] == old(buf[count + 1..])
  {
    buf[count] := NUL;
    if count > 0 && buf[count - 1] == '\n' {
      buf[count - 1] := NUL;
    }
    LoadedText(buf[..], bytes);
  }

  /** Reads a file into the caller's buffer.  `count` is what `read` delivers: as much as fits,
      or less. */
  method LoadSysfsPath(file: File, count: nat, buf: array<char>, len: nat) returns (err: int)
    requires len <= buf.Length
    requires file.Contents? ==> count <= Min(|file.bytes|, len)
    modifies buf
    ensures err == if file.Contents? && count < len then 0 else -22
    ensures err == 0 ==> CStr(buf[..]) == WholeText(file.bytes[..count])
    ensures err == 0 && count == Min(|file.bytes|, len) ==> CStr(buf[..]) == WholeText(file.bytes)
    ensures buf[len..] == old(buf[len..])
  {
    if file.Missing? {
      return -EINVAL;
    }
    if file.Unreadable? {
      return -EINVAL;
    }
    CopyIn(buf, file.bytes[..count]);
    if count >= len {
      return -EINVAL;
    }
    EndText(buf, count, file.bytes[..count]);
    assert count == |file.bytes| ==> file.bytes[..count] == file.bytes;
    return 0;
  }

  // ----- the two readers

  /** No newline before the last byte, or only behind a NUL. */
  predicate SingleLine(bytes: string) {
    forall i :: 0 <= i < |CStr(bytes)| ==> bytes[i] == '\n' ==> i == |bytes| - 1
  }

  /** Both readers, the second with a buffer of 64, succeed with the same text exactly for
      files of 1 to 63 bytes that hold a single line. */
  lemma ReadersAgreeIff(bytes: string)
    ensures (bytes != "" && |bytes| < LINE_SIZE && FirstLine(bytes) == WholeText(bytes))
            <==> 1 <= |bytes| <= 63 && SingleLine(bytes)
  {
  }
}
