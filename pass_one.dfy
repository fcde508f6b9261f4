/** Pass 1 of l80.c (`collect1`): every input is read once, the address
    counter advances over the bytes each record will occupy in the image,
    and each declaration is appended to the symbol table at the counter's
    current value. No output is produced. */
module PassOne {
  import opened Base
  import opened Diagnostics
  import opened ObjectStream
  import opened Symbols

  /** Load address of the first image byte, where the counter starts. */
  const ORIGIN: int := 0x100

  /** The address counter and the symbol table. */
  datatype State = State(addr: int, table: seq<Symbol>)

  /** Effect of one record: a data byte advances the counter by one, a
      reference by two, and either fails once the counter passes
      `USHRT_MAX`; a declaration binds its key to the counter unless the key
      is empty or already present; a marker does nothing. */
  function Step(st: State, r: Record): Outcome<State> {
    match r
    case Data(_) =>
      var next := st.(addr := st.addr + 1);
      if next.addr > USHRT_MAX then Outcome(Failed(AddressOverflow), next) else Outcome(Completed, next)
    case Decl(name) =>
      var k := Key(name);
      if k == [] then Outcome(Failed(EmptySymbol), st)
      else if Declared(st.table, k) then Outcome(Failed(DuplicateSymbol(k)), st)
      else Outcome(Completed, st.(table := st.table + [Symbol(k, st.addr)]))
    case Ref(_) =>
      var next := st.(addr := st.addr + 2);
      if next.addr > USHRT_MAX then Outcome(Failed(AddressOverflow), next) else Outcome(Completed, next)
    case Marker => Outcome(Completed, st)
  }

  /** Records processed in order until the first failing one. */
  function Fold(recs: seq<Record>, st: State): (o: Outcome<State>)
    ensures !o.status.Halted?
    decreases |recs|
  {
    if recs == [] then Outcome(Completed, st)
    else
      var o := Step(st, recs[0]);
      if o.status.Failed? then o else Fold(recs[1..], o.state)
  }

  /** The message pass 1 gives for a framing fault. */
  function FaultError(f: Fault): Error {
    match f
    case TruncatedData => InvalidDataByte
    case Unterminated(_) => UnterminatedSymbol
    case UnknownControl(c) => UnknownControlByte(c)
  }

  /** How the input ended decides the pass's end, unless a record failed first. */
  function Finish(o: Outcome<State>, end: Ending): Outcome<State> {
    if o.status.Failed? then o
    else match end
      case Exhausted => o
      case Halt => Outcome(Halted, o.state)
      case Fault(f) => Outcome(Failed(FaultError(f)), o.state)
      case Unopenable(p) => Outcome(Failed(CouldNotOpen(p)), o.state)
  }

  /** `collect1` over the input files `paths` with initial table `table`. */
  function Collect(paths: seq<string>, fs: map<string, seq<Byte>>, table: seq<Symbol>): Outcome<State> {
    var g := Gather(paths, fs);
    Finish(Fold(g.recs, State(ORIGIN, table)), g.end)
  }

  /** The entries pass 1 appends for `recs` when the counter starts at
      `addr`: one per declaration, in input order, each bound to the number
      of image bytes that precede it (plus `addr`). */
  function Bindings(recs: seq<Record>, addr: int): seq<Symbol>
    decreases |recs|
  {
    if recs == [] then []
    else match recs[0]
      case Decl(n) => [Symbol(Key(n), addr)] + Bindings(recs[1..], addr)
      case r => Bindings(recs[1..], addr + Width(r))
  }

  /** "@" is taken from the start: declaring it is a duplicate. */
  lemma SentinelTaken(st: State, name: seq<Byte>)
    requires Valid(st.table) && Key(name) == SENTINEL.name
    ensures Step(st, Decl(name)) == Outcome(Failed(DuplicateSymbol(SENTINEL.name)), st)
  {
    assert st.table[0].name == Key(name);
  }

  /** A successful run of records leaves the counter advanced by their
      image size, never above `USHRT_MAX`, and the table extended by their
      bindings. */
  lemma {:induction false} FoldLayout(recs: seq<Record>, st: State)
    requires st.addr <= USHRT_MAX
    requires Fold(recs, st).status.Completed?
    ensures st.addr + Size(recs) <= USHRT_MAX
    ensures Fold(recs, st).state == State(st.addr + Size(recs), st.table + Bindings(recs, st.addr))
  {
    if recs == [] {
      assert st.table + [] == st.table;
    } else {
      var o := Step(st, recs[0]);
      FoldLayout(recs[1..], o.state);
      if recs[0].Decl? {
        Assoc(st.table, [Symbol(Key(recs[0].name), st.addr)], Bindings(recs[1..], st.addr));
      }
    }
  }

  /** Pass 1 accepts a run of records exactly when their image fits below
      `USHRT_MAX` and the table extended by their bindings is still valid:
      every key non-empty, every key new, "@" included. */
  lemma {:induction false} FoldSucceeds(recs: seq<Record>, st: State)
    requires Valid(st.table) && 0 <= st.addr <= USHRT_MAX
    ensures Fold(recs, st).status.Completed?
        <==> st.addr + Size(recs) <= USHRT_MAX && Valid(st.table + Bindings(recs, st.addr))
  {
    if recs == [] {
      assert st.table + [] == st.table;
    } else {
      var r, rest := recs[0], recs[1..];
      var o := Step(st, r);
      match r
      case Decl(n) =>
        var s := Symbol(Key(n), st.addr);
        var b := Bindings(rest, st.addr);
        Assoc(st.table, [s], b);
        if Key(n) == [] || Declared(st.table, Key(n)) {
          ExtendInvalid(st.table, s, b);
        } else {
          AppendValid(st.table, Key(n), st.addr);
          FoldSucceeds(rest, o.state);
        }
      case Data(_) =>
        if !o.status.Failed? {
          FoldSucceeds(rest, o.state);
        }
      case Ref(_) =>
        if !o.status.Failed? {
          FoldSucceeds(rest, o.state);
        }
      case Marker =>
        FoldSucceeds(rest, o.state);
    }
  }

  /** Each declaration among `recs` is bound to the counter's start plus
      the image size of the records before it. */
  lemma {:induction false} BindingAddress(recs: seq<Record>, addr: int, j: nat)
    requires j < |recs| && recs[j].Decl?
    ensures Symbol(Key(recs[j].name), addr + Size(recs[..j])) in Bindings(recs, addr)
  {
    if j == 0 {
      assert recs[..0] == [];
    } else {
      BindingAddress(recs[1..], addr + Width(recs[0]), j - 1);
      assert recs[1..][..j - 1] == recs[..j][1..];
      assert recs[1..][j - 1] == recs[j];
    }
  }

  lemma {:induction false} DataOnly(recs: seq<Record>, addr: int)
    requires forall i :: 0 <= i < |recs| ==> recs[i].Data?
    ensures Size(recs) == |recs| && Bindings(recs, addr) == []
  {
    if recs != [] {
      assert recs[0].Data?;
      DataOnly(recs[1..], addr + 1);
    }
  }

  /** Data records that take the counter past `USHRT_MAX` fail with the
      address overflow. */
  lemma {:induction false} DataOverflow(recs: seq<Record>, st: State)
    requires forall i :: 0 <= i < |recs| ==> recs[i].Data?
    requires st.addr <= USHRT_MAX < st.addr + |recs|
    ensures Fold(recs, st).status == Failed(AddressOverflow)
  {
    assert recs[0].Data?;
    var o := Step(st, recs[0]);
    if o.state.addr <= USHRT_MAX {
      assert forall i :: 0 <= i < |recs| - 1 ==> recs[1..][i] == recs[i + 1];
      DataOverflow(recs[1..], o.state);
    }
  }

  /** With data records only, pass 1 accepts at most 65,279 of them: the
      65,280th takes the counter to 0x10000 and fails with the overflow
      reported as "final binary exceeds 65,280 bytes". */
  lemma DataCeiling(recs: seq<Record>)
    requires forall i :: 0 <= i < |recs| ==> recs[i].Data?
    ensures Fold(recs, State(ORIGIN, [SENTINEL])).status.Completed? <==> |recs| <= 65279
    ensures 65279 < |recs| ==> Fold(recs, State(ORIGIN, [SENTINEL])).status == Failed(AddressOverflow)
  {
    DataOnly(recs, ORIGIN);
    FoldSucceeds(recs, State(ORIGIN, [SENTINEL]));
    assert [SENTINEL] + [] == [SENTINEL];
    if 65279 < |recs| {
      DataOverflow(recs, State(ORIGIN, [SENTINEL]));
    }
  }

  /** Pass 1 never reports "binary too large": that message belongs to
      pass 2 alone. */
  lemma {:induction false} FoldNeverTooLarge(recs: seq<Record>, st: State)
    ensures Fold(recs, st).status != Failed(BinaryTooLarge)
  {
    if recs != [] && !Step(st, recs[0]).status.Failed? {
      FoldNeverTooLarge(recs[1..], Step(st, recs[0]).state);
    }
  }

  /** Pass 1 as a whole: it succeeds exactly when every input it reaches
      (all of them, or those up to the first CP/M EOF byte) opens and has
      no framing fault before that point, the image of the records read
      fits, and their keys are non-empty and new; it never fails with
      "binary too large"; then the
      counter ends at the origin plus the image size and the table is the
      sentinel followed by the bindings in input order. */
  lemma CollectOutcome(paths: seq<string>, fs: map<string, seq<Byte>>)
    ensures var g := Gather(paths, fs);
            var p := Collect(paths, fs, [SENTINEL]);
            && (!p.status.Failed?
                <==> (g.end.Exhausted? || g.end.Halt?)
                     && ORIGIN + Size(g.recs) <= USHRT_MAX
                     && Valid([SENTINEL] + Bindings(g.recs, ORIGIN)))
            && (!p.status.Failed? ==> p.state == State(ORIGIN + Size(g.recs), [SENTINEL] + Bindings(g.recs, ORIGIN)))
            && p.status != Failed(BinaryTooLarge)
  {
    var g := Gather(paths, fs);
    FoldNeverTooLarge(g.recs, State(ORIGIN, [SENTINEL]));
    FoldSucceeds(g.recs, State(ORIGIN, [SENTINEL]));
    if Fold(g.recs, State(ORIGIN, [SENTINEL])).status.Completed? {
      FoldLayout(g.recs, State(ORIGIN, [SENTINEL]));
    }
  }

  /** Whatever happens, the table pass 1 leaves behind stays valid. */
  lemma {:induction false} FoldValid(recs: seq<Record>, st: State)
    requires Valid(st.table) && 0 <= st.addr <= USHRT_MAX
    ensures Valid(Fold(recs, st).state.table)
  {
    if recs != [] {
      var o := Step(st, recs[0]);
      if o.status.Completed? {
        if recs[0].Decl? {
          AppendValid(st.table, Key(recs[0].name), st.addr);
        }
        FoldValid(recs[1..], o.state);
      }
    }
  }

  /** What pass 1 still has to do when it is at position `at` of file `s`,
      with the files `rest` still to come, in state `st`. */
  ghost function Todo(s: seq<Byte>, at: nat, rest: seq<string>, fs: map<string, seq<Byte>>, st: State): Outcome<State>
    requires at <= |s|
  {
    Finish(Fold(Resume(s[at..], rest, fs).recs, st), Resume(s[at..], rest, fs).end)
  }

  /** A record decoded at `at`, ending before `next`, that pass 1 accepts:
      what remains to be done starts at `next` in the new state. */
  lemma Advance(s: seq<Byte>, at: nat, next: nat, r: Record, rest: seq<string>,
                fs: map<string, seq<Byte>>, st: State, st': State)
    requires at < next <= |s| && Decode(s[at..]) == Got(r, next - at)
    requires Step(st, r) == Outcome(Completed, st')
    ensures Todo(s, at, rest, fs, st) == Todo(s, next, rest, fs, st')
  {
    ResumeStep(s[at..], rest, fs);
    assert s[at..][next - at..] == s[next..];
  }

  /** A record decoded at `at` that pass 1 refuses ends the pass with
      that record's failure. */
  lemma Refuse(s: seq<Byte>, at: nat, r: Record, rest: seq<string>, fs: map<string, seq<Byte>>, st: State)
    requires at < |s| && Decode(s[at..]).Got? && Decode(s[at..]).rec == r
    requires Step(st, r).status.Failed?
    ensures Todo(s, at, rest, fs, st) == Step(st, r)
  {
    ResumeStep(s[at..], rest, fs);
  }

  /** Decoding stops at the current position of the file. */
  lemma Stop(s: seq<Byte>, at: nat, rest: seq<string>, fs: map<string, seq<Byte>>, st: State)
    requires at < |s| && !Decode(s[at..]).Got?
    ensures Todo(s, at, rest, fs, st)
         == if Decode(s[at..]).Bad? then Outcome(Failed(FaultError(Decode(s[at..]).fault)), st)
            else Outcome(Halted, st)
  {
  }

  /** The `0x01` case of `collect1`'s read loop: the name is read into
      the symbol buffer, then refused when its key is empty or already in
      the table, and otherwise appended at the counter's value. */
  method Declaration1(s: seq<Byte>, at: nat, addr: int, tab: SymbolTable, ghost rest: seq<string>,
                      ghost fs: map<string, seq<Byte>>) returns (status: Status, next: nat)
    requires at < |s| && s[at] == DECLARE
    modifies tab
    ensures status.Completed? ==> at < next <= |s|
    ensures Todo(s, at, rest, fs, State(addr, old(tab.entries)))
         == if status.Completed? then Todo(s, next, rest, fs, State(addr, tab.entries))
            else Outcome(status, State(addr, tab.entries))
  {
    ghost var st := State(addr, tab.entries);
    var found, end, key := ReadName(s, at + 1, DECLARE);
    DecodeNameAt(s, at);
    if !found {
      Stop(s, at, rest, fs, st);
      return Failed(UnterminatedSymbol), at + 1;
    }
    ghost var r := Decl(s[at + 1..end]);
    next := end + 1;
    if key == [] {
      Refuse(s, at, r, rest, fs, st);
      return Failed(EmptySymbol), next;
    }
    var duplicate := tab.Declare(key, addr);
    if duplicate {
      Refuse(s, at, r, rest, fs, st);
      return Failed(DuplicateSymbol(key)), next;
    }
    Advance(s, at, next, r, rest, fs, st, State(addr, tab.entries));
    return Completed, next;
  }

  /** The `0x02` case of `collect1`'s read loop: the name is skipped and
      the counter advanced by two, which fails above `USHRT_MAX`. */
  method Reference1(s: seq<Byte>, at: nat, addr: int, ghost table: seq<Symbol>, ghost rest: seq<string>,
                    ghost fs: map<string, seq<Byte>>) returns (status: Status, next: nat, addr': int)
    requires at < |s| && s[at] == REFERENCE
    ensures status.Completed? ==> at < next <= |s|
    ensures Todo(s, at, rest, fs, State(addr, table))
         == if status.Completed? then Todo(s, next, rest, fs, State(addr', table))
            else Outcome(status, State(addr', table))
  {
    ghost var st := State(addr, table);
    var found, end := SkipName(s, at + 1, REFERENCE);
    DecodeNameAt(s, at);
    if !found {
      Stop(s, at, rest, fs, st);
      return Failed(UnterminatedSymbol), at + 1, addr;
    }
    ghost var r := Ref(s[at + 1..end]);
    next, addr' := end + 1, addr + 2;
    if addr' > USHRT_MAX {
      Refuse(s, at, r, rest, fs, st);
      return Failed(AddressOverflow), next, addr';
    }
    Advance(s, at, next, r, rest, fs, st, State(addr', table));
    return Completed, next, addr';
  }

  /** One pass through the body of `collect1`'s read loop: the record that
      starts at `at` is read and applied to the counter `addr` and the
      table. `Completed` means the loop goes on at `next`. */
  method Record1(s: seq<Byte>, at: nat, addr: int, tab: SymbolTable, ghost rest: seq<string>,
                 ghost fs: map<string, seq<Byte>>) returns (status: Status, next: nat, addr': int)
    requires at < |s|
    modifies tab
    ensures status.Completed? ==> at < next <= |s|
    ensures Todo(s, at, rest, fs, State(addr, old(tab.entries)))
         == if status.Completed? then Todo(s, next, rest, fs, State(addr', tab.entries))
            else Outcome(status, State(addr', tab.entries))
  {
    ghost var st := State(addr, tab.entries);
    var ch := s[at];
    next, addr' := at + 1, addr;
    if ch == DATA {
      if next == |s| {
        Stop(s, at, rest, fs, st);
        return Failed(InvalidDataByte), next, addr';
      }
      ghost var r := Data(s[next]);
      next, addr' := next + 1, addr + 1;
      if addr' > USHRT_MAX {
        Refuse(s, at, r, rest, fs, st);
        return Failed(AddressOverflow), next, addr';
      }
      Advance(s, at, next, r, rest, fs, st, State(addr', tab.entries));
      status := Completed;
    } else if ch == DECLARE {
      status, next := Declaration1(s, at, addr, tab, rest, fs);
    } else if ch == REFERENCE {
      status, next, addr' := Reference1(s, at, addr, tab.entries, rest, fs);
    } else if ch == MARKER {
      Advance(s, at, next, Marker, rest, fs, st, st);
      status := Completed;
    } else if ch == CPM_EOF {
      Stop(s, at, rest, fs, st);
      status := Halted;
    } else {
      Stop(s, at, rest, fs, st);
      status := Failed(UnknownControlByte(ch));
    }
  }

  /** `collect1`: the address counter and the table grow record by record
      as the bytes of each file are read. */
  method Collect1(paths: seq<string>, fs: map<string, seq<Byte>>, tab: SymbolTable) returns (status: Status)
    modifies tab
    ensures status == Collect(paths, fs, old(tab.entries)).status
    ensures tab.entries == Collect(paths, fs, old(tab.entries)).state.table
  {
    ghost var spec := Collect(paths, fs, tab.entries);
    var addr := ORIGIN;
    var i := 0;
    while i < |paths|
      invariant 0 <= i <= |paths|
      invariant spec == Finish(Fold(Gather(paths[i..], fs).recs, State(addr, tab.entries)), Gather(paths[i..], fs).end)
    {
      if paths[i] !in fs {
        return Failed(CouldNotOpen(paths[i]));
      }
      var s := fs[paths[i]];
      ghost var rest := paths[i + 1..];
      assert paths[i..][1..] == rest;
      assert s[0..] == s;
      var pos := 0;
      while pos < |s|
        invariant 0 <= pos <= |s|
        invariant spec == Todo(s, pos, rest, fs, State(addr, tab.entries))
      {
        status, pos, addr := Record1(s, pos, addr, tab, rest, fs);
        if !status.Completed? {
          return;
        }
      }
      assert s[pos..] == [];
      assert [] + Gather(rest, fs).recs == Gather(rest, fs).recs;
      i := i + 1;
    }
    return Completed;
  }
}
