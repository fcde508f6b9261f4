/** Pass 2 of l80.c (`process2`): every input is read again and the image
    is written byte by byte, each reference replaced by the little-endian
    address pass 1 bound to its key. */
module PassTwo {
  import opened Base
  import opened Diagnostics
  import opened ObjectStream
  import opened Symbols

  /** Number of bytes already written at which the next write fails. */
  const BIN_MAX: nat := 0xFF00

  /** Low byte of an address (`addr & 0xff`). */
  function Lo(a: int): Byte { a % 256 }

  /** High byte of a 16-bit address (`(addr >> 8) & 0xff`). */
  function Hi(a: int): Byte { a / 256 % 256 }

  /** For a 16-bit address the two bytes are its little-endian encoding:
      the high byte is the address divided by 256, and the two bytes give
      the address back. */
  lemma LittleEndian(a: int)
    requires 0 <= a <= USHRT_MAX
    ensures Hi(a) == a / 256 && a == Lo(a) + 256 * Hi(a)
  {
    assert a / 256 < 256;
  }

  /** `fputc` followed by the test `bin++ == BIN_MAX`: the byte is written
      even when the test then fails. */
  function Put(out: seq<Byte>, b: Byte): Outcome<seq<Byte>> {
    Outcome(if |out| == BIN_MAX then Failed(BinaryTooLarge) else Completed, out + [b])
  }

  /** Effect of one record on the bytes written so far: a data record
      writes its payload, a reference writes the low then the high byte of
      the address its key resolves to in `table` and fails when the key is
      not there; declarations and markers write nothing. */
  function Step(table: seq<Symbol>, out: seq<Byte>, r: Record): Outcome<seq<Byte>> {
    match r
    case Data(b) => Put(out, b)
    case Decl(_) => Outcome(Completed, out)
    case Ref(name) =>
      var k := Key(name);
      (match Resolve(table, k)
       case None => Outcome(Failed(UndefinedReference(k)), out)
       case Some(a) =>
         var o := Put(out, Lo(a));
         if o.status.Failed? then o else Put(o.state, Hi(a)))
    case Marker => Outcome(Completed, out)
  }

  /** Records processed in order until the first failing one. */
  function Fold(recs: seq<Record>, table: seq<Symbol>, out: seq<Byte>): (o: Outcome<seq<Byte>>)
    ensures !o.status.Halted?
    decreases |recs|
  {
    if recs == [] then Outcome(Completed, out)
    else
      var o := Step(table, out, recs[0]);
      if o.status.Failed? then o else Fold(recs[1..], table, o.state)
  }

  /** The message pass 2 gives for a framing fault; unlike pass 1 it tells
      an open declaration from an open reference. */
  function FaultError(f: Fault): Error {
    match f
    case TruncatedData => InvalidDataByte
    case Unterminated(c) => if c == DECLARE then UnterminatedDeclaration else UnterminatedReference
    case UnknownControl(c) => UnknownControlByte(c)
  }

  /** How the input ended decides the pass's end, unless a record failed first. */
  function Finish(o: Outcome<seq<Byte>>, end: Ending): Outcome<seq<Byte>> {
    if o.status.Failed? then o
    else match end
      case Exhausted => o
      case Halt => Outcome(Halted, o.state)
      case Fault(f) => Outcome(Failed(FaultError(f)), o.state)
      case Unopenable(p) => Outcome(Failed(CouldNotOpen(p)), o.state)
  }

  /** `process2` over the input files `paths` with the table `table`: the
      status and every byte written to the output file. */
  function Process(paths: seq<string>, fs: map<string, seq<Byte>>, table: seq<Symbol>): Outcome<seq<Byte>> {
    var g := Gather(paths, fs);
    Finish(Fold(g.recs, table, []), g.end)
  }

  /** A reference to `name` can be resolved against `table`. */
  predicate Defined(table: seq<Symbol>, r: Record) {
    r.Ref? ==> Declared(table, Key(r.name))
  }

  /** Every reference among `recs` names a key of `table`. */
  predicate Resolves(recs: seq<Record>, table: seq<Symbol>) {
    forall i :: 0 <= i < |recs| ==> Defined(table, recs[i])
  }

  /** The bytes one record stands for in the image. */
  function Bytes(table: seq<Symbol>, r: Record): (b: seq<Byte>)
    requires Defined(table, r)
    ensures |b| == Width(r)
  {
    match r
    case Data(b) => [b]
    case Ref(name) =>
      var a := Resolve(table, Key(name)).value;
      [Lo(a), Hi(a)]
    case _ => []
  }

  /** The bytes `recs` stand for once every reference is resolved. */
  function Image(recs: seq<Record>, table: seq<Symbol>): seq<Byte>
    requires Resolves(recs, table)
    decreases |recs|
  {
    if recs == [] then [] else Bytes(table, recs[0]) + Image(recs[1..], table)
  }

  /** One record written after `out`: an unknown key fails at once with
      nothing written; otherwise the record's bytes are written, and if
      they cross the ceiling the write of the byte at index `BIN_MAX` is
      the last one and fails. */
  lemma StepBytes(table: seq<Symbol>, out: seq<Byte>, r: Record)
    requires |out| <= BIN_MAX
    ensures !Defined(table, r) ==> Step(table, out, r) == Outcome(Failed(UndefinedReference(Key(r.name))), out)
    ensures Defined(table, r) && |out| + Width(r) <= BIN_MAX ==>
              Step(table, out, r) == Outcome(Completed, out + Bytes(table, r))
    ensures Defined(table, r) && |out| + Width(r) > BIN_MAX ==>
              Step(table, out, r) == Outcome(Failed(BinaryTooLarge), (out + Bytes(table, r))[..BIN_MAX + 1])
  {
    match r
    case Data(b) =>
      assert |out| + 1 > BIN_MAX ==> (out + [b])[..BIN_MAX + 1] == out + [b];
    case Ref(name) =>
      if Defined(table, r) {
        var a := Resolve(table, Key(name)).value;
        var w := out + [Lo(a), Hi(a)];
        assert out + [Lo(a)] + [Hi(a)] == w;
        assert |out| == BIN_MAX ==> w[..BIN_MAX + 1] == out + [Lo(a)];
        assert |out| == BIN_MAX - 1 ==> w[..BIN_MAX + 1] == w;
      }
    case _ =>
      assert out + Bytes(table, r) == out;
  }

  lemma ResolvesFront(recs: seq<Record>, table: seq<Symbol>)
    requires recs != []
    ensures Resolves(recs, table) <==> Defined(table, recs[0]) && Resolves(recs[1..], table)
  {
    assert forall i :: 0 <= i < |recs| - 1 ==> recs[1..][i] == recs[i + 1];
  }

  /** The image has exactly as many bytes as pass 1 counts for the records. */
  lemma {:induction false} ImageSize(recs: seq<Record>, table: seq<Symbol>)
    requires Resolves(recs, table)
    ensures |Image(recs, table)| == Size(recs)
  {
    if recs != [] {
      ResolvesFront(recs, table);
      ImageSize(recs[1..], table);
    }
  }

  /** The image of consecutive runs of records is the concatenation of their images. */
  lemma {:induction false} ImageAppend(a: seq<Record>, b: seq<Record>, table: seq<Symbol>)
    requires Resolves(a + b, table)
    ensures Resolves(a, table) && Resolves(b, table)
    ensures Image(a + b, table) == Image(a, table) + Image(b, table)
  {
    if a == [] {
      assert a + b == b;
    } else {
      var ab := a + b;
      assert ab[0] == a[0] && ab[1..] == a[1..] + b;
      ResolvesFront(ab, table);
      ImageAppend(a[1..], b, table);
      ResolvesFront(a, table);
      Assoc(Bytes(table, a[0]), Image(a[1..], table), Image(b, table));
    }
  }

  /** Where a record's bytes sit in the image: a data record's payload, or a
      reference's low and high address bytes, start at the size of the
      records before it. */
  lemma ImageAt(recs: seq<Record>, table: seq<Symbol>, i: nat)
    requires Resolves(recs, table) && i < |recs|
    ensures Size(recs[..i]) + Width(recs[i]) <= |Image(recs, table)|
    ensures recs[i].Data? ==> Image(recs, table)[Size(recs[..i])] == recs[i].payload
    ensures recs[i].Ref? ==>
              var a := Resolve(table, Key(recs[i].name)).value;
              && Image(recs, table)[Size(recs[..i])] == Lo(a)
              && Image(recs, table)[Size(recs[..i]) + 1] == Hi(a)
  {
    assert recs == recs[..i] + recs[i..];
    ImageAppend(recs[..i], recs[i..], table);
    ImageSize(recs[..i], table);
    ResolvesFront(recs[i..], table);
    ImageSize(recs[i + 1..], table);
    assert recs[i..][1..] == recs[i + 1..];
  }

  /** Below the output ceiling, a failing pass 2 stops at the first
      reference whose key is not in the table and names that key. */
  lemma {:induction false} FirstUndefined(recs: seq<Record>, table: seq<Symbol>, out: seq<Byte>)
    requires |out| + Size(recs) <= BIN_MAX && Fold(recs, table, out).status.Failed?
    ensures exists i :: 0 <= i < |recs| && Resolves(recs[..i], table)
                        && recs[i].Ref? && !Declared(table, Key(recs[i].name))
                        && Fold(recs, table, out).status.error == UndefinedReference(Key(recs[i].name))
  {
    var r, rest := recs[0], recs[1..];
    StepBytes(table, out, r);
    if !Defined(table, r) {
      assert recs[..0] == [];
    } else {
      FirstUndefined(rest, table, out + Bytes(table, r));
      var i :| 0 <= i < |rest| && Resolves(rest[..i], table)
               && rest[i].Ref? && !Declared(table, Key(rest[i].name))
               && Fold(rest, table, out + Bytes(table, r)).status.error == UndefinedReference(Key(rest[i].name));
      var front := recs[..i + 1];
      assert front[0] == r && front[1..] == rest[..i];
      ResolvesFront(front, table);
      assert recs[i + 1] == rest[i];
    }
  }

  /** Below the output ceiling, pass 2 succeeds exactly when every reference
      resolves; it then writes the image, and otherwise stops on the first
      reference whose key is not in the table, naming that key. */
  lemma {:induction false} FoldImage(recs: seq<Record>, table: seq<Symbol>, out: seq<Byte>)
    requires |out| + Size(recs) <= BIN_MAX
    ensures Fold(recs, table, out).status.Completed? <==> Resolves(recs, table)
    ensures Resolves(recs, table) ==> Fold(recs, table, out).state == out + Image(recs, table)
    ensures Fold(recs, table, out).status.Failed? ==>
              && Fold(recs, table, out).status.error.UndefinedReference?
              && !Declared(table, Fold(recs, table, out).status.error.name)
    ensures Fold(recs, table, out).status.Failed? ==>
              exists i :: 0 <= i < |recs| && Resolves(recs[..i], table)
                          && recs[i].Ref? && !Declared(table, Key(recs[i].name))
                          && Fold(recs, table, out).status.error == UndefinedReference(Key(recs[i].name))
  {
    if Fold(recs, table, out).status.Failed? {
      FirstUndefined(recs, table, out);
    }
    if recs != [] {
      var r, rest := recs[0], recs[1..];
      ResolvesFront(recs, table);
      StepBytes(table, out, r);
      if Defined(table, r) {
        var out' := out + Bytes(table, r);
        FoldImage(rest, table, out');
        if Resolves(rest, table) {
          Assoc(out, Bytes(table, r), Image(rest, table));
        }
      }
    }
  }

  /** Past the ceiling, pass 2 fails with "binary too large" having written
      exactly `BIN_MAX + 1` bytes of the image (the 65,281st byte included). */
  lemma {:induction false} FoldTooLarge(recs: seq<Record>, table: seq<Symbol>, out: seq<Byte>)
    requires Resolves(recs, table) && |out| <= BIN_MAX < |out| + Size(recs)
    ensures BIN_MAX < |out + Image(recs, table)|
    ensures Fold(recs, table, out) == Outcome(Failed(BinaryTooLarge), (out + Image(recs, table))[..BIN_MAX + 1])
  {
    var r, rest := recs[0], recs[1..];
    ResolvesFront(recs, table);
    ImageSize(recs, table);
    ImageSize(rest, table);
    StepBytes(table, out, r);
    var out' := out + Bytes(table, r);
    Assoc(out, Bytes(table, r), Image(rest, table));
    if |out'| <= BIN_MAX {
      FoldTooLarge(rest, table, out');
    } else {
      assert (out' + Image(rest, table))[..BIN_MAX + 1] == out'[..BIN_MAX + 1];
    }
  }

  /** What pass 2 still has to do when it is at position `at` of file `s`,
      with the files `rest` still to come, having written `out`. */
  ghost function Todo(s: seq<Byte>, at: nat, rest: seq<string>, fs: map<string, seq<Byte>>,
                      table: seq<Symbol>, out: seq<Byte>): Outcome<seq<Byte>>
    requires at <= |s|
  {
    Finish(Fold(Resume(s[at..], rest, fs).recs, table, out), Resume(s[at..], rest, fs).end)
  }

  /** A record decoded at `at`, ending before `next`, that pass 2 writes
      out: what remains to be done starts at `next`. */
  lemma Advance(s: seq<Byte>, at: nat, next: nat, r: Record, rest: seq<string>,
                fs: map<string, seq<Byte>>, table: seq<Symbol>, out: seq<Byte>, out': seq<Byte>)
    requires at < next <= |s| && Decode(s[at..]) == Got(r, next - at)
    requires Step(table, out, r) == Outcome(Completed, out')
    ensures Todo(s, at, rest, fs, table, out) == Todo(s, next, rest, fs, table, out')
  {
    ResumeStep(s[at..], rest, fs);
    assert s[at..][next - at..] == s[next..];
  }

  /** A record decoded at `at` that pass 2 cannot write ends the pass with
      that record's failure. */
  lemma Refuse(s: seq<Byte>, at: nat, r: Record, rest: seq<string>, fs: map<string, seq<Byte>>,
               table: seq<Symbol>, out: seq<Byte>)
    requires at < |s| && Decode(s[at..]).Got? && Decode(s[at..]).rec == r
    requires Step(table, out, r).status.Failed?
    ensures Todo(s, at, rest, fs, table, out) == Step(table, out, r)
  {
    ResumeStep(s[at..], rest, fs);
  }

  /** Decoding stops at the current position of the file. */
  lemma Stop(s: seq<Byte>, at: nat, rest: seq<string>, fs: map<string, seq<Byte>>,
             table: seq<Symbol>, out: seq<Byte>)
    requires at < |s| && !Decode(s[at..]).Got?
    ensures Todo(s, at, rest, fs, table, out)
         == if Decode(s[at..]).Bad? then Outcome(Failed(FaultError(Decode(s[at..]).fault)), out)
            else Outcome(Halted, out)
  {
  }

  /** The `0x01` case of `process2`'s read loop: the declaration is
      skipped and nothing is written. */
  method Declaration2(s: seq<Byte>, at: nat, ghost table: seq<Symbol>, ghost out: seq<Byte>,
                      ghost rest: seq<string>, ghost fs: map<string, seq<Byte>>)
    returns (status: Status, next: nat)
    requires at < |s| && s[at] == DECLARE
    ensures status.Completed? ==> at < next <= |s|
    ensures Todo(s, at, rest, fs, table, out)
         == if status.Completed? then Todo(s, next, rest, fs, table, out) else Outcome(status, out)
  {
    var found, end := SkipName(s, at + 1, DECLARE);
    DecodeNameAt(s, at);
    if !found {
      Stop(s, at, rest, fs, table, out);
      return Failed(UnterminatedDeclaration), at + 1;
    }
    next := end + 1;
    Advance(s, at, next, Decl(s[at + 1..end]), rest, fs, table, out, out);
    return Completed, next;
  }

  /** The `0x02` case of `process2`'s read loop: the name is read into the
      symbol buffer, looked up from the head of the table, and the low and
      then the high byte of its address are written, each write counted
      against `BIN_MAX`. */
  method Reference2(s: seq<Byte>, at: nat, tab: SymbolTable, bin: nat, out: seq<Byte>,
                    ghost rest: seq<string>, ghost fs: map<string, seq<Byte>>)
    returns (status: Status, next: nat, bin': nat, out': seq<Byte>)
    requires at < |s| && s[at] == REFERENCE && bin == |out|
    ensures bin' == |out'|
    ensures status.Completed? ==> at < next <= |s|
    ensures Todo(s, at, rest, fs, tab.entries, out)
         == if status.Completed? then Todo(s, next, rest, fs, tab.entries, out') else Outcome(status, out')
  {
    ghost var table := tab.entries;
    bin', out' := bin, out;
    var found, end, key := ReadName(s, at + 1, REFERENCE);
    DecodeNameAt(s, at);
    if !found {
      Stop(s, at, rest, fs, table, out);
      return Failed(UnterminatedReference), at + 1, bin', out';
    }
    ghost var r := Ref(s[at + 1..end]);
    next := end + 1;
    var defined, addr := tab.Lookup(key);
    if !defined {
      Refuse(s, at, r, rest, fs, table, out);
      return Failed(UndefinedReference(key)), next, bin', out';
    }
    out', bin' := out' + [Lo(addr)], bin' + 1;
    if bin' == BIN_MAX + 1 {
      Refuse(s, at, r, rest, fs, table, out);
      return Failed(BinaryTooLarge), next, bin', out';
    }
    out', bin' := out' + [Hi(addr)], bin' + 1;
    if bin' == BIN_MAX + 1 {
      Refuse(s, at, r, rest, fs, table, out);
      return Failed(BinaryTooLarge), next, bin', out';
    }
    Advance(s, at, next, r, rest, fs, table, out, out');
    return Completed, next, bin', out';
  }

  /** One pass through the body of `process2`'s read loop: the record that
      starts at `at` is read and its bytes appended to `out`, whose length
      is the counter `bin`. `Completed` means the loop goes on at `next`. */
  method Record2(s: seq<Byte>, at: nat, tab: SymbolTable, bin: nat, out: seq<Byte>,
                 ghost rest: seq<string>, ghost fs: map<string, seq<Byte>>)
    returns (status: Status, next: nat, bin': nat, out': seq<Byte>)
    requires at < |s| && bin == |out|
    ensures bin' == |out'|
    ensures status.Completed? ==> at < next <= |s|
    ensures Todo(s, at, rest, fs, tab.entries, out)
         == if status.Completed? then Todo(s, next, rest, fs, tab.entries, out') else Outcome(status, out')
  {
    ghost var table := tab.entries;
    var ch := s[at];
    next, bin', out' := at + 1, bin, out;
    if ch == DATA {
      if next == |s| {
        Stop(s, at, rest, fs, table, out);
        return Failed(InvalidDataByte), next, bin', out';
      }
      ghost var r := Data(s[next]);
      out', bin' := out' + [s[next]], bin' + 1;
      next := next + 1;
      if bin' == BIN_MAX + 1 {
        Refuse(s, at, r, rest, fs, table, out);
        return Failed(BinaryTooLarge), next, bin', out';
      }
      Advance(s, at, next, r, rest, fs, table, out, out');
      status := Completed;
    } else if ch == DECLARE {
      status, next := Declaration2(s, at, table, out, rest, fs);
    } else if ch == REFERENCE {
      status, next, bin', out' := Reference2(s, at, tab, bin, out, rest, fs);
    } else if ch == MARKER {
      Advance(s, at, next, Marker, rest, fs, table, out, out');
      status := Completed;
    } else if ch == CPM_EOF {
      Stop(s, at, rest, fs, table, out);
      status := Halted;
    } else {
      Stop(s, at, rest, fs, table, out);
      status := Failed(UnknownControlByte(ch));
    }
  }

  /** `process2`: the bytes of each file are read again and the image is
      written to `out` record by record; `bin` counts the bytes written. */
  method Process2(paths: seq<string>, fs: map<string, seq<Byte>>, tab: SymbolTable)
    returns (status: Status, out: seq<Byte>)
    ensures Outcome(status, out) == Process(paths, fs, tab.entries)
  {
    ghost var spec := Process(paths, fs, tab.entries);
    var bin := 0;
    out := [];
    var i := 0;
    while i < |paths|
      invariant 0 <= i <= |paths| && bin == |out|
      invariant spec == Finish(Fold(Gather(paths[i..], fs).recs, tab.entries, out), Gather(paths[i..], fs).end)
    {
      if paths[i] !in fs {
        return Failed(CouldNotOpen(paths[i])), out;
      }
      var s := fs[paths[i]];
      ghost var rest := paths[i + 1..];
      assert paths[i..][1..] == rest;
      assert s[0..] == s;
      var pos := 0;
      while pos < |s|
        invariant 0 <= pos <= |s| && bin == |out|
        invariant spec == Todo(s, pos, rest, fs, tab.entries, out)
      {
        status, pos, bin, out := Record2(s, pos, tab, bin, out, rest, fs);
        if !status.Completed? {
          return;
        }
      }
      assert s[pos..] == [];
      assert [] + Gather(rest, fs).recs == Gather(rest, fs).recs;
      i := i + 1;
    }
    return Completed, out;
  }
}
