/** `main` of l80.c: the command line `ld binary file1.obj [file2.obj ...]`
    is checked, the output name `<binary>.com` derived, the symbol table
    seeded with "@", and pass 2 run only when pass 1 succeeded. A failed
    link leaves no output file behind. */
module Linker {
  import opened Base
  import opened Diagnostics
  import opened ObjectStream
  import opened Symbols
  import PassOne
  import PassTwo

  /** The suffixes an input file name may end in; case matters. */
  const SUFFIXES: set<string> := {".obj", ".OBJ", ".lib", ".LIB"}

  /** Longest accepted output base name. */
  const BASE_MAX: nat := 8

  /** Characters of the base name kept by `strncpy` into `bin[13]`. */
  const BIN_KEEP: nat := 12

  /** What the output name gets appended. */
  const COM: string := ".com"

  /** What a run of the linker leaves behind: the output file and its
      bytes, or, after a failure (exit status 1), nothing. */
  datatype LinkResult = Linked(output: string, image: seq<Byte>) | Aborted(error: Error)

  /** Position of the last '.' of `p` (`strrchr(p, '.')`), if any. */
  function LastDot(p: string): (r: Option<nat>)
    ensures r.Some? ==> r.value < |p| && p[r.value] == '.' && forall k :: r.value < k < |p| ==> p[k] != '.'
    ensures r.None? ==> forall k :: 0 <= k < |p| ==> p[k] != '.'
    decreases |p|
  {
    if p == [] then None
    else if p[|p| - 1] == '.' then Some(|p| - 1)
    else LastDot(p[..|p| - 1])
  }

  /** The test `main` applies to every input name: the text from its last
      '.' on is one of the four suffixes. A name without a '.' is refused. */
  predicate HasObjectSuffix(p: string) {
    match LastDot(p)
    case None => false
    case Some(d) => p[d..] in SUFFIXES
  }

  /** Only the last four characters of a name decide the suffix test. */
  lemma SuffixIsLastFour(p: string)
    ensures HasObjectSuffix(p) <==> |p| >= 4 && p[|p| - 4..] in SUFFIXES
  {
    if |p| >= 4 && p[|p| - 4..] in SUFFIXES {
      var d := |p| - 4;
      assert p[d] == p[d..][0] == '.';
      assert forall k :: d < k < |p| ==> p[k] == p[d..][k - d] != '.';
      assert LastDot(p) == Some(d);
    }
  }

  /** Suffixes are compared exactly: mixed case is refused, earlier dots
      do not matter, and a name with no dot at all is refused. */
  lemma SuffixExamples()
    ensures HasObjectSuffix("crt0.obj") && HasObjectSuffix("LIBC.LIB") && HasObjectSuffix("a.b.lib")
    ensures !HasObjectSuffix("prog.Obj") && !HasObjectSuffix("prog.obj.bak") && !HasObjectSuffix("prog")
  {
    SuffixIsLastFour("crt0.obj");
    SuffixIsLastFour("LIBC.LIB");
    SuffixIsLastFour("a.b.lib");
    SuffixIsLastFour("prog.Obj");
    SuffixIsLastFour("prog.obj.bak");
    assert "crt0.obj"[4..] == ".obj";
    assert "LIBC.LIB"[4..] == ".LIB";
    assert "a.b.lib"[3..] == ".lib";
    assert "prog.Obj"[4..] == ".Obj";
    assert "prog.obj.bak"[8..] == ".bak";
    assert LastDot("prog") == None;
  }

  /** The whole link of `argv` (`argv[0]` the program name, `argv[1]` the
      output base name, the rest the inputs) against the files `fs`. */
  function Ld(argv: seq<string>, fs: map<string, seq<Byte>>): LinkResult {
    if |argv| < 3 then Aborted(Usage)
    else if exists i :: 2 <= i < |argv| && !HasObjectSuffix(argv[i]) then Aborted(BadSuffix)
    else if |argv[1]| > BASE_MAX then Aborted(OutputNameTooLong(argv[1]))
    else
      var p1 := PassOne.Collect(argv[2..], fs, [SENTINEL]);
      if p1.status.Failed? then Aborted(p1.status.error)
      else
        var p2 := PassTwo.Process(argv[2..], fs, p1.state.table);
        if p2.status.Failed? then Aborted(p2.status.error)
        else Linked(argv[1] + COM, p2.state)
  }

  /** `main`. */
  method Run(argv: seq<string>, fs: map<string, seq<Byte>>) returns (result: LinkResult)
    ensures result == Ld(argv, fs)
  {
    if |argv| < 3 {
      return Aborted(Usage);
    }
    var i := 2;
    while i < |argv|
      invariant 2 <= i <= |argv|
      invariant forall k :: 2 <= k < i ==> HasObjectSuffix(argv[k])
    {
      if !HasObjectSuffix(argv[i]) {
        return Aborted(BadSuffix);
      }
      i := i + 1;
    }
    var bin := argv[1][..Min(|argv[1]|, BIN_KEEP)];
    if |bin| > BASE_MAX {
      return Aborted(OutputNameTooLong(argv[1]));
    }
    assert bin == argv[1];
    bin := bin + COM;
    var tab := new SymbolTable();
    var status := PassOne.Collect1(argv[2..], fs, tab);
    if status.Failed? {
      return Aborted(status.error);
    }
    var image;
    status, image := PassTwo.Process2(argv[2..], fs, tab);
    if status.Failed? {
      return Aborted(status.error);
    }
    return Linked(bin, image);
  }

  /** Every input that will be read has an accepted suffix and the base
      name fits: what is left to decide depends on the file contents. */
  predicate WellFormedCommand(argv: seq<string>) {
    && |argv| >= 3
    && (forall i :: 2 <= i < |argv| ==> HasObjectSuffix(argv[i]))
    && |argv[1]| <= BASE_MAX
  }

  /** The symbol table pass 1 builds for `recs`: "@" followed by one entry
      per declaration, in input order. */
  function TableFor(recs: seq<Record>): seq<Symbol> {
    [SENTINEL] + PassOne.Bindings(recs, PassOne.ORIGIN)
  }

  /** A well-formed command links exactly when every input read (all of
      them, or those up to the first CP/M EOF byte) opens and has no framing
      fault before that point, the image fits below address 0x10000, every
      key is non-empty and new, and every reference names a declared key.
      The output is then `<binary>.com` holding the image, whose length is
      the final pass-1 counter minus 0x100, at most 65,279 bytes. A link that
      fails in pass 1 reports pass 1's error; one that gets past pass 1 can
      only fail on the first reference whose key is undeclared, naming it.
      "binary too large" is never reported. */
  lemma LinkOutcome(argv: seq<string>, fs: map<string, seq<Byte>>)
    requires WellFormedCommand(argv)
    ensures var g := Gather(argv[2..], fs);
            var t := TableFor(g.recs);
            var p1 := PassOne.Collect(argv[2..], fs, [SENTINEL]);
            var pass1 := (g.end.Exhausted? || g.end.Halt?)
                         && PassOne.ORIGIN + Size(g.recs) <= USHRT_MAX && Valid(t);
            && (!p1.status.Failed? <==> pass1)
            && (p1.status.Failed? ==> Ld(argv, fs) == Aborted(p1.status.error))
            && (Ld(argv, fs).Linked? <==> pass1 && PassTwo.Resolves(g.recs, t))
            && (Ld(argv, fs).Linked? ==>
                  && Ld(argv, fs) == Linked(argv[1] + COM, PassTwo.Image(g.recs, t))
                  && |Ld(argv, fs).image| == p1.state.addr - PassOne.ORIGIN <= 65279)
            && (pass1 && !PassTwo.Resolves(g.recs, t) ==>
                  exists i :: 0 <= i < |g.recs| && PassTwo.Resolves(g.recs[..i], t)
                              && g.recs[i].Ref? && !Declared(t, Key(g.recs[i].name))
                              && Ld(argv, fs) == Aborted(UndefinedReference(Key(g.recs[i].name))))
            && Ld(argv, fs) != Aborted(BinaryTooLarge)
  {
    var inputs := argv[2..];
    var g := Gather(inputs, fs);
    var t := TableFor(g.recs);
    PassOne.CollectOutcome(inputs, fs);
    var p1 := PassOne.Collect(inputs, fs, [SENTINEL]);
    if !p1.status.Failed? {
      PassTwo.FoldImage(g.recs, t, []);
      if PassTwo.Resolves(g.recs, t) {
        PassTwo.ImageSize(g.recs, t);
        assert [] + PassTwo.Image(g.recs, t) == PassTwo.Image(g.recs, t);
      }
    }
  }

  /** A framing fault in an input aborts the link: with the pass-1 message
      for that fault unless a record before it already failed. */
  lemma FramingFaultAborts(argv: seq<string>, fs: map<string, seq<Byte>>)
    requires WellFormedCommand(argv) && Gather(argv[2..], fs).end.Fault?
    ensures Ld(argv, fs).Aborted?
    ensures var g := Gather(argv[2..], fs);
            PassOne.Fold(g.recs, PassOne.State(PassOne.ORIGIN, [SENTINEL])).status.Completed? ==>
              Ld(argv, fs) == Aborted(PassOne.FaultError(g.end.fault))
  {
  }

  /** What a link that succeeded wrote: the image of the records read,
      under the table pass 1 built. */
  lemma LinkedImage(argv: seq<string>, fs: map<string, seq<Byte>>)
    requires WellFormedCommand(argv) && Ld(argv, fs).Linked?
    ensures var recs := Gather(argv[2..], fs).recs;
            && Valid(TableFor(recs)) && PassTwo.Resolves(recs, TableFor(recs))
            && Ld(argv, fs).image == PassTwo.Image(recs, TableFor(recs))
  {
    LinkOutcome(argv, fs);
  }

  /** Every declaration is bound to 0x100 plus the number of image bytes
      before it, counted over all inputs in order. */
  lemma DeclarationAddress(recs: seq<Record>, j: nat)
    requires Valid(TableFor(recs)) && j < |recs| && recs[j].Decl?
    ensures Resolve(TableFor(recs), Key(recs[j].name)) == Some(PassOne.ORIGIN + Size(recs[..j]))
  {
    var t := TableFor(recs);
    var sym := Symbol(Key(recs[j].name), PassOne.ORIGIN + Size(recs[..j]));
    PassOne.BindingAddress(recs, PassOne.ORIGIN, j);
    var k :| 0 <= k < |PassOne.Bindings(recs, PassOne.ORIGIN)| && PassOne.Bindings(recs, PassOne.ORIGIN)[k] == sym;
    assert t[k + 1] == sym;
    ResolveUnique(t, k + 1);
  }

  /** In the image, a reference is patched with the little-endian address
      of the declaration carrying its key, wherever that declaration is:
      earlier or later in the same file, or in another input. */
  lemma ReferenceImage(recs: seq<Record>, i: nat, j: nat)
    requires Valid(TableFor(recs)) && PassTwo.Resolves(recs, TableFor(recs))
    requires i < |recs| && j < |recs| && recs[i].Ref? && recs[j].Decl? && Key(recs[i].name) == Key(recs[j].name)
    ensures var a := PassOne.ORIGIN + Size(recs[..j]);
            var image := PassTwo.Image(recs, TableFor(recs));
            var at := Size(recs[..i]);
            at + 1 < |image| && image[at] == a % 256 && image[at + 1] == a / 256
  {
    var t := TableFor(recs);
    DeclarationAddress(recs, j);
    var k := FindIndex(t, Key(recs[j].name)).value;
    PassTwo.LittleEndian(t[k].addr);
    PassTwo.ImageAt(recs, t, i);
  }

  /** A reference to "@" is patched with 00 00. */
  lemma SentinelReference(argv: seq<string>, fs: map<string, seq<Byte>>, i: nat)
    requires WellFormedCommand(argv) && Ld(argv, fs).Linked?
    requires var recs := Gather(argv[2..], fs).recs;
             i < |recs| && recs[i].Ref? && Key(recs[i].name) == SENTINEL.name
    ensures var at := Size(Gather(argv[2..], fs).recs[..i]);
            at + 1 < |Ld(argv, fs).image| && Ld(argv, fs).image[at] == 0 && Ld(argv, fs).image[at + 1] == 0
  {
    var recs := Gather(argv[2..], fs).recs;
    var t := TableFor(recs);
    LinkedImage(argv, fs);
    ValidResolves(t);
    PassTwo.ImageAt(recs, t, i);
  }
}
