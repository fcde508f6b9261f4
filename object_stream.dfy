/** The object-stream wire format: control-byte framed records, the name
    key the linker compares, and the view of all input files as one record
    sequence. l80.c repeats the decoding `switch` in both passes; here it is
    stated once, as `Decode`, and both passes are specified over it. */
module ObjectStream {
  import opened Base

  const DATA: Byte := 0x00
  const DECLARE: Byte := 0x01
  const REFERENCE: Byte := 0x02
  const MARKER: Byte := 0x03
  const CPM_EOF: Byte := 0x1A

  /** Bytes of a name that are kept: `sizeof(symbol) - 1`. */
  const NAME_MAX: nat := 15

  /** A decoded record. Names are the raw bytes between the two control
      bytes; the linker compares them through `Key`. */
  datatype Record =
    | Data(payload: Byte)
    | Decl(name: seq<Byte>)
    | Ref(name: seq<Byte>)
    | Marker

  /** Framing faults: end of file right after 0x00, end of file before the
      closing control byte of a name, or an unknown control byte. */
  datatype Fault = TruncatedData | Unterminated(control: Byte) | UnknownControl(control: Byte)

  /** The result of decoding at the front of a non-empty byte sequence. */
  datatype Decoded = Got(rec: Record, length: nat) | EndOfFile | Bad(fault: Fault)

  /** How reading stopped: end of input, CP/M EOF, a framing fault, or an
      input file that could not be opened. */
  datatype Ending = Exhausted | Halt | Fault(fault: Fault) | Unopenable(path: string)

  datatype Parsed = Parsed(recs: seq<Record>, end: Ending)

  /** Index of the first `t` in `s`: the read loop `while ((ch = fgetc(fp)) != t)`. */
  function FindByte(s: seq<Byte>, t: Byte): (r: Option<nat>)
    ensures r.Some? ==> r.value < |s| && s[r.value] == t
    ensures r.Some? ==> forall k :: 0 <= k < r.value ==> s[k] != t
    ensures r.None? ==> forall k :: 0 <= k < |s| ==> s[k] != t
  {
    if s == [] then None
    else if s[0] == t then Some(0)
    else match FindByte(s[1..], t)
      case None => None
      case Some(i) => Some(i + 1)
  }

  /** The first occurrence is the only index with the properties of `FindByte`. */
  lemma FindByteIs(s: seq<Byte>, t: Byte, i: nat)
    requires i < |s| && s[i] == t
    requires forall k :: 0 <= k < i ==> s[k] != t
    ensures FindByte(s, t) == Some(i)
  {
  }

  /** `strlen` of a NUL-padded buffer: the bytes before the first 0. */
  function CutNul(x: seq<Byte>): (r: seq<Byte>)
    ensures |r| <= |x| && r == x[..|r|]
    ensures forall k :: 0 <= k < |r| ==> r[k] != 0
    ensures |r| == |x| || x[|r|] == 0
  {
    if x == [] || x[0] == 0 then [] else [x[0]] + CutNul(x[1..])
  }

  /** The three properties of `CutNul` determine it. */
  lemma {:induction false} CutNulIs(x: seq<Byte>, y: seq<Byte>)
    requires |y| <= |x| && y == x[..|y|]
    requires forall k :: 0 <= k < |y| ==> y[k] != 0
    requires |y| == |x| || x[|y|] == 0
    ensures CutNul(x) == y
  {
  }

  /** The key under which a name is declared or looked up: the first
      `NAME_MAX` bytes of the name, cut at the first NUL. */
  function Key(name: seq<Byte>): (k: seq<Byte>)
    ensures |k| <= NAME_MAX && |k| <= |name| && k == name[..|k|]
    ensures forall i :: 0 <= i < |k| ==> k[i] != 0
    ensures |k| == |name| || |k| == NAME_MAX || name[|k|] == 0
  {
    CutNul(name[..Min(|name|, NAME_MAX)])
  }

  /** Names that agree on their first `NAME_MAX` bytes have the same key:
      long identifiers alias silently. */
  lemma {:induction false} KeyAliasing(a: seq<Byte>, b: seq<Byte>)
    requires NAME_MAX <= |a| && NAME_MAX <= |b| && a[..NAME_MAX] == b[..NAME_MAX]
    ensures Key(a) == Key(b)
  {
    var k := Key(a);
    assert k == b[..|k|] by {
      assert a[..|k|] == a[..NAME_MAX][..|k|];
    }
    if |k| < NAME_MAX {
      assert b[|k|] == a[..NAME_MAX][|k|];
    }
    CutNulIs(b[..Min(|b|, NAME_MAX)], k);
  }

  /** Decodes the record at the front of `s`. */
  function Decode(s: seq<Byte>): (d: Decoded)
    requires |s| > 0
    ensures d.Got? ==> 0 < d.length <= |s| && WellFormed(d.rec)
  {
    var c := s[0];
    if c == DATA then
      if |s| > 1 then Got(Data(s[1]), 2) else Bad(TruncatedData)
    else if c == DECLARE || c == REFERENCE then
      match FindByte(s[1..], c)
      case None => Bad(Unterminated(c))
      case Some(t) =>
        var name := s[1..t + 1];
        Got(if c == DECLARE then Decl(name) else Ref(name), t + 2)
    else if c == MARKER then Got(Marker, 1)
    else if c == CPM_EOF then EndOfFile
    else Bad(UnknownControl(c))
  }

  /** Decoding a name record that starts at position `at` of `s`. */
  lemma DecodeNameAt(s: seq<Byte>, at: nat)
    requires at < |s| && (s[at] == DECLARE || s[at] == REFERENCE)
    ensures FindByte(s[at + 1..], s[at]).None? ==> Decode(s[at..]) == Bad(Unterminated(s[at]))
    ensures FindByte(s[at + 1..], s[at]).Some? ==>
              var e := at + 1 + FindByte(s[at + 1..], s[at]).value;
              var name := s[at + 1..e];
              Decode(s[at..]) == Got(if s[at] == DECLARE then Decl(name) else Ref(name), e + 1 - at)
  {
    var u := s[at..];
    assert u[0] == s[at] && u[1..] == s[at + 1..];
    match FindByte(s[at + 1..], s[at])
    case Some(t) =>
      assert t + 1 < |u|;
      assert u[1..t + 1] == s[at + 1..at + 1 + t];
    case None =>
  }

  /** A record that can be written: its name does not contain its own
      terminator. */
  predicate WellFormed(r: Record) {
    match r
    case Decl(n) => forall k :: 0 <= k < |n| ==> n[k] != DECLARE
    case Ref(n) => forall k :: 0 <= k < |n| ==> n[k] != REFERENCE
    case _ => true
  }

  /** The bytes an assembler writes for a record. */
  function Encode(r: Record): seq<Byte>
    requires WellFormed(r)
  {
    match r
    case Data(b) => [DATA, b]
    case Decl(n) => [DECLARE] + n + [DECLARE]
    case Ref(n) => [REFERENCE] + n + [REFERENCE]
    case Marker => [MARKER]
  }

  /** Decoding a name record: the name runs to the first terminator. */
  lemma DecodeEncodedName(c: Byte, n: seq<Byte>, rest: seq<Byte>)
    requires (c == DECLARE || c == REFERENCE) && forall k :: 0 <= k < |n| ==> n[k] != c
    ensures Decode([c] + n + [c] + rest) == Got(if c == DECLARE then Decl(n) else Ref(n), |n| + 2)
  {
    var s := [c] + n + [c] + rest;
    assert s[1..] == n + ([c] + rest);
    FindByteIs(s[1..], c, |n|);
    assert s[1..|n| + 1] == n;
  }

  /** Decoding an encoded record gives it back and consumes exactly its bytes. */
  lemma DecodeEncode(r: Record, rest: seq<Byte>)
    requires WellFormed(r)
    ensures Decode(Encode(r) + rest) == Got(r, |Encode(r)|)
  {
    match r
    case Decl(n) => DecodeEncodedName(DECLARE, n, rest);
    case Ref(n) => DecodeEncodedName(REFERENCE, n, rest);
    case _ =>
  }

  /** Every record the decoder accepts is the encoding of what it returns. */
  lemma EncodeDecode(s: seq<Byte>)
    requires |s| > 0 && Decode(s).Got?
    ensures Encode(Decode(s).rec) == s[..Decode(s).length]
  {
    var d := Decode(s);
    match d.rec
    case Decl(n) =>
      assert s[..d.length] == [s[0]] + s[1..d.length - 1] + [s[d.length - 1]];
    case Ref(n) =>
      assert s[..d.length] == [s[0]] + s[1..d.length - 1] + [s[d.length - 1]];
    case _ =>
  }

  /** Number of image bytes a record stands for: one per data byte, two per
      reference, none for declarations and markers. */
  function Width(r: Record): nat {
    match r
    case Data(_) => 1
    case Ref(_) => 2
    case _ => 0
  }

  /** Number of image bytes a run of records stands for. */
  function Size(recs: seq<Record>): nat {
    if recs == [] then 0 else Width(recs[0]) + Size(recs[1..])
  }

  lemma {:induction false} SizeAppend(a: seq<Record>, b: seq<Record>)
    ensures Size(a + b) == Size(a) + Size(b)
  {
    if a == [] {
      assert a + b == b;
    } else {
      assert (a + b)[1..] == a[1..] + b;
      SizeAppend(a[1..], b);
    }
  }

  /** The records of one file, up to its end, its first CP/M EOF byte or
      its first framing fault. */
  function Parse(s: seq<Byte>): (p: Parsed)
    ensures !p.end.Unopenable?
    ensures forall i :: 0 <= i < |p.recs| ==> WellFormed(p.recs[i])
    decreases |s|
  {
    if s == [] then Parsed([], Exhausted)
    else match Decode(s)
      case EndOfFile => Parsed([], Halt)
      case Bad(f) => Parsed([], Fault(f))
      case Got(r, n) =>
        var p := Parse(s[n..]);
        Parsed([r] + p.recs, p.end)
  }

  /** Concatenated encodings of a run of records. */
  function EncodeAll(recs: seq<Record>): seq<Byte>
    requires forall i :: 0 <= i < |recs| ==> WellFormed(recs[i])
  {
    if recs == [] then [] else Encode(recs[0]) + EncodeAll(recs[1..])
  }

  /** Parsing the encoding of records, followed by anything, yields those
      records first. */
  lemma {:induction false} ParseEncoded(recs: seq<Record>, tail: seq<Byte>)
    requires forall i :: 0 <= i < |recs| ==> WellFormed(recs[i])
    ensures Parse(EncodeAll(recs) + tail) == Parsed(recs + Parse(tail).recs, Parse(tail).end)
  {
    if recs == [] {
      assert EncodeAll(recs) + tail == tail;
    } else {
      var pt := Parse(tail);
      assert recs == [recs[0]] + recs[1..];
      Assoc([recs[0]], recs[1..], pt.recs);
      ParseFront(recs, tail);
      ParseEncoded(recs[1..], tail);
    }
  }

  /** Parsing past the first encoded record. */
  lemma ParseFront(recs: seq<Record>, tail: seq<Byte>)
    requires recs != [] && forall i :: 0 <= i < |recs| ==> WellFormed(recs[i])
    ensures Parse(EncodeAll(recs) + tail)
         == Parsed([recs[0]] + Parse(EncodeAll(recs[1..]) + tail).recs, Parse(EncodeAll(recs[1..]) + tail).end)
  {
    var e := Encode(recs[0]);
    var more := EncodeAll(recs[1..]) + tail;
    var s := EncodeAll(recs) + tail;
    assert s == e + more by {
      assert EncodeAll(recs) == e + EncodeAll(recs[1..]);
      Assoc(e, EncodeAll(recs[1..]), tail);
    }
    DecodeEncode(recs[0], more);
    assert s[|e|..] == more;
  }

  /** A CP/M EOF byte after well-formed records ends the file, whatever follows. */
  lemma CpmEofEndsFile(recs: seq<Record>, junk: seq<Byte>)
    requires forall i :: 0 <= i < |recs| ==> WellFormed(recs[i])
    ensures Parse(EncodeAll(recs) + [CPM_EOF] + junk) == Parsed(recs, Halt)
  {
    assert EncodeAll(recs) + [CPM_EOF] + junk == EncodeAll(recs) + ([CPM_EOF] + junk);
    ParseEncoded(recs, [CPM_EOF] + junk);
    assert recs + [] == recs;
  }

  /** The records of all input files, read in order: a file that ends
      normally is followed by the next one; any other ending stops the whole
      sequence, including the CP/M EOF byte. */
  function Gather(paths: seq<string>, fs: map<string, seq<Byte>>): Parsed
    decreases |paths|, 1
  {
    if paths == [] then Parsed([], Exhausted)
    else if paths[0] !in fs then Parsed([], Unopenable(paths[0]))
    else Resume(fs[paths[0]], paths[1..], fs)
  }

  /** The records of the rest `s` of one file followed by files `rest`. */
  function Resume(s: seq<Byte>, rest: seq<string>, fs: map<string, seq<Byte>>): Parsed
    decreases |rest| + 1, 0
  {
    var p := Parse(s);
    if p.end.Exhausted? then
      var g := Gather(rest, fs);
      Parsed(p.recs + g.recs, g.end)
    else p
  }

  /** One record decoded from the front of the current file. */
  lemma ResumeStep(s: seq<Byte>, rest: seq<string>, fs: map<string, seq<Byte>>)
    requires |s| > 0 && Decode(s).Got?
    ensures Resume(s, rest, fs)
         == Parsed([Decode(s).rec] + Resume(s[Decode(s).length..], rest, fs).recs,
                   Resume(s[Decode(s).length..], rest, fs).end)
  {
    var d := Decode(s);
    var p := Parse(s[d.length..]);
    if p.end.Exhausted? {
      var g := Gather(rest, fs);
      assert [d.rec] + p.recs + g.recs == [d.rec] + (p.recs + g.recs);
    }
  }

  /** The records of several runs, one after the other. */
  function Concat(rs: seq<seq<Record>>): (r: seq<Record>)
    ensures Size(r) == SizeAll(rs)
  {
    if rs == [] then [] else SizeAppend(rs[0], Concat(rs[1..])); rs[0] + Concat(rs[1..])
  }

  /** Total image size of several runs of records. */
  function SizeAll(rs: seq<seq<Record>>): nat {
    if rs == [] then 0 else Size(rs[0]) + SizeAll(rs[1..])
  }

  /** The first `k` inputs open and are read to their end, yielding the
      runs `rs`: the records of all inputs are those runs in order, followed
      by what the inputs from `k` on yield, which also decide the ending. */
  lemma {:induction false} GatherPrefix(paths: seq<string>, fs: map<string, seq<Byte>>, rs: seq<seq<Record>>)
    requires |rs| <= |paths|
    requires forall i :: 0 <= i < |rs| ==> paths[i] in fs && Parse(fs[paths[i]]) == Parsed(rs[i], Exhausted)
    ensures Gather(paths, fs) == Parsed(Concat(rs) + Gather(paths[|rs|..], fs).recs, Gather(paths[|rs|..], fs).end)
  {
    if rs == [] {
      assert paths[0..] == paths;
    } else {
      var later := Gather(paths[|rs|..], fs);
      GatherPrefix(paths[1..], fs, rs[1..]);
      assert paths[1..][|rs| - 1..] == paths[|rs|..];
      Assoc(rs[0], Concat(rs[1..]), later.recs);
    }
  }

  /** Inputs that all open and are read to their end are read in order:
      the records are their runs concatenated, and the input is exhausted. */
  lemma GatherInOrder(paths: seq<string>, fs: map<string, seq<Byte>>, rs: seq<seq<Record>>)
    requires |rs| == |paths|
    requires forall i :: 0 <= i < |rs| ==> paths[i] in fs && Parse(fs[paths[i]]) == Parsed(rs[i], Exhausted)
    ensures Gather(paths, fs) == Parsed(Concat(rs), Exhausted)
  {
    GatherPrefix(paths, fs, rs);
    assert paths[|rs|..] == [];
    assert Concat(rs) + [] == Concat(rs);
  }

  /** A CP/M EOF byte in input `|rs|`, after inputs read to their end, ends
      the input there: the rest of that file and all later files, even
      missing ones, are never read. */
  lemma HaltIgnoresLaterFiles(paths: seq<string>, fs: map<string, seq<Byte>>, rs: seq<seq<Record>>,
                              recs: seq<Record>, junk: seq<Byte>)
    requires |rs| < |paths|
    requires forall i :: 0 <= i < |rs| ==> paths[i] in fs && Parse(fs[paths[i]]) == Parsed(rs[i], Exhausted)
    requires forall i :: 0 <= i < |recs| ==> WellFormed(recs[i])
    requires paths[|rs|] in fs && fs[paths[|rs|]] == EncodeAll(recs) + [CPM_EOF] + junk
    ensures Gather(paths, fs) == Parsed(Concat(rs) + recs, Halt)
  {
    GatherPrefix(paths, fs, rs);
    CpmEofEndsFile(recs, junk);
    assert paths[|rs|..][0] == paths[|rs|];
  }

  /** Skips the bytes of a name up to its terminator, as pass 1 does for
      references and pass 2 for declarations. */
  method SkipName(s: seq<Byte>, start: nat, term: Byte) returns (found: bool, end: nat)
    requires start <= |s|
    ensures found <==> FindByte(s[start..], term).Some?
    ensures found ==> end == start + FindByte(s[start..], term).value
  {
    var p := start;
    while p < |s| && s[p] != term
      invariant start <= p <= |s|
      invariant forall k :: start <= k < p ==> s[k] != term
    {
      p := p + 1;
    }
    if p == |s| {
      return false, p;
    }
    FindByteIs(s[start..], term, p - start);
    return true, p;
  }

  /** Reads a name up to its terminator into a zeroed 16-byte buffer,
      keeping at most `NAME_MAX` bytes, and returns the buffer's `strlen`
      prefix. */
  method ReadName(s: seq<Byte>, start: nat, term: Byte) returns (found: bool, end: nat, key: seq<Byte>)
    requires start <= |s|
    ensures found <==> FindByte(s[start..], term).Some?
    ensures found ==> end == start + FindByte(s[start..], term).value && key == Key(s[start..end])
  {
    var symbol := new Byte[NAME_MAX + 1](_ => 0);
    var j := 0;
    var p := start;
    while p < |s| && s[p] != term
      invariant start <= p <= |s|
      invariant forall k :: start <= k < p ==> s[k] != term
      invariant j == Min(p - start, NAME_MAX)
      invariant forall k :: 0 <= k < j ==> symbol[k] == s[start + k]
      invariant forall k :: j <= k < symbol.Length ==> symbol[k] == 0
    {
      if j < NAME_MAX {
        symbol[j] := s[p];
        j := j + 1;
      }
      p := p + 1;
    }
    if p == |s| {
      return false, p, [];
    }
    FindByteIs(s[start..], term, p - start);
    var n := 0;
    while symbol[n] != 0
      invariant 0 <= n <= j
      decreases j - n
      invariant forall k :: 0 <= k < n ==> symbol[k] != 0
    {
      n := n + 1;
    }
    found, end, key := true, p, symbol[..n];
    ghost var name := s[start..end];
    assert name[..Min(|name|, NAME_MAX)] == symbol[..j];
    CutNulIs(symbol[..j], key);
  }
}
