/** A worked link of two inputs: `a.obj` holds data bytes 11 and 22 and
    then declares X; `b.obj` refers to X and then holds data byte 33. X is
    bound to 0x100 + 2 = 0x102, so the reference is patched with 02 01. */
module TwoFiles {
  import opened Base
  import opened ObjectStream
  import opened Symbols
  import PassOne
  import PassTwo
  import opened Linker

  const X: seq<Byte> := [0x58]
  const A: seq<Byte> := [0x00, 0x11, 0x00, 0x22, 0x01, 0x58, 0x01]
  const B: seq<Byte> := [0x02, 0x58, 0x02, 0x00, 0x33]
  const FS: map<string, seq<Byte>> := map["a.obj" := A, "b.obj" := B]
  const ARGV: seq<string> := ["ld", "prog", "a.obj", "b.obj"]
  const RECS: seq<Record> := [Data(0x11), Data(0x22), Decl(X), Ref(X), Data(0x33)]

  /** `a.obj` encodes a data byte 11, a data byte 22 and a declaration of X. */
  lemma FileA()
    ensures Parse(A) == Parsed([Data(0x11), Data(0x22), Decl(X)], Exhausted)
  {
    var ra := [Data(0x11), Data(0x22), Decl(X)];
    assert WellFormed(Decl(X));
    var e2 := EncodeAll(ra[2..]);
    assert e2 == [0x01, 0x58, 0x01] by {
      assert ra[2..] == [Decl(X)] && ra[2..][1..] == [];
      assert Encode(Decl(X)) == [0x01, 0x58, 0x01];
      assert EncodeAll(ra[2..]) == Encode(Decl(X)) + EncodeAll([]);
    }
    var e1 := EncodeAll(ra[1..]);
    assert e1 == [0x00, 0x22] + e2 by {
      assert ra[1..][1..] == ra[2..];
    }
    assert EncodeAll(ra) == [0x00, 0x11] + e1;
    assert EncodeAll(ra) + [] == A;
    ParseEncoded(ra, []);
    assert ra + [] == ra;
  }

  /** `b.obj` encodes a reference to X and a data byte 33. */
  lemma FileB()
    ensures Parse(B) == Parsed([Ref(X), Data(0x33)], Exhausted)
  {
    var rb := [Ref(X), Data(0x33)];
    assert WellFormed(Ref(X));
    var e1 := EncodeAll(rb[1..]);
    assert e1 == [0x00, 0x33] by {
      assert rb[1..] == [Data(0x33)] && rb[1..][1..] == [];
      assert EncodeAll(rb[1..]) == Encode(Data(0x33)) + EncodeAll([]);
    }
    assert EncodeAll(rb) == [0x02, 0x58, 0x02] + e1;
    assert EncodeAll(rb) + [] == B;
    ParseEncoded(rb, []);
    assert rb + [] == rb;
  }

  /** The records read from the two files, in order, with no fault. */
  lemma Inputs()
    ensures Gather(ARGV[2..], FS) == Parsed(RECS, Exhausted)
  {
    FileA();
    FileB();
    var paths := ARGV[2..];
    var rs := [[Data(0x11), Data(0x22), Decl(X)], [Ref(X), Data(0x33)]];
    assert paths == ["a.obj", "b.obj"];
    assert FS["a.obj"] == A && FS["b.obj"] == B;
    GatherInOrder(paths, FS, rs);
    assert Concat(rs) == RECS by {
      assert rs[1..] == [rs[1]] && rs[1..][1..] == [];
      assert Concat(rs[1..]) == rs[1] + [];
    }
  }

  /** The command line passes `main`'s checks. */
  lemma Command()
    ensures WellFormedCommand(ARGV)
  {
    SuffixIsLastFour("a.obj");
    SuffixIsLastFour("b.obj");
    assert "a.obj"[1..] == ".obj" && "b.obj"[1..] == ".obj";
  }

  lemma KeyX()
    ensures Key(X) == X
  {
    assert X[..Min(|X|, NAME_MAX)] == X;
    assert X[1..] == [];
  }

  /** Pass 1 binds X to 0x102 after the sentinel. */
  lemma Table()
    ensures TableFor(RECS) == [SENTINEL, Symbol(X, 0x102)]
    ensures Size(RECS) == 5
  {
    KeyX();
    var r := RECS;
    var r1, r2, r3, r4 := r[1..], r[2..], r[3..], r[4..];
    assert r4[1..] == [] && r3[1..] == r4 && r2[1..] == r3 && r1[1..] == r2;
    assert r4[0] == Data(0x33) && r3[0] == Ref(X) && r2[0] == Decl(X) && r1[0] == Data(0x22) && r[0] == Data(0x11);
    assert PassOne.Bindings(r4, 0x104) == [];
    assert PassOne.Bindings(r3, 0x102) == [];
    assert PassOne.Bindings(r2, 0x102) == [Symbol(X, 0x102)];
    assert PassOne.Bindings(r1, 0x101) == [Symbol(X, 0x102)];
    assert PassOne.Bindings(r, 0x100) == [Symbol(X, 0x102)];
    assert Size(r4) == 1 && Size(r3) == 3 && Size(r2) == 3 && Size(r1) == 4;
  }

  /** The image the link writes. */
  lemma Image()
    ensures var t := [SENTINEL, Symbol(X, 0x102)];
            PassTwo.Resolves(RECS, t) && PassTwo.Image(RECS, t) == [0x11, 0x22, 0x02, 0x01, 0x33]
  {
    var t := [SENTINEL, Symbol(X, 0x102)];
    KeyX();
    assert t[1].name == X;
    assert Resolve(t, X) == Some(0x102) by {
      assert FindIndex(t[1..], X) == Some(0);
      assert FindIndex(t, X) == Some(1);
    }
    var r := RECS;
    var r1, r2, r3, r4 := r[1..], r[2..], r[3..], r[4..];
    assert r4[1..] == [] && r3[1..] == r4 && r2[1..] == r3 && r1[1..] == r2;
    assert r4[0] == Data(0x33) && r3[0] == Ref(X) && r2[0] == Decl(X) && r1[0] == Data(0x22) && r[0] == Data(0x11);
    assert PassTwo.Resolves(r, t);
    assert PassTwo.Image(r4, t) == [0x33];
    assert PassTwo.Image(r3, t) == [0x02, 0x01, 0x33];
    assert PassTwo.Image(r2, t) == [0x02, 0x01, 0x33];
    assert PassTwo.Image(r1, t) == [0x22, 0x02, 0x01, 0x33];
  }

  /** The whole link: `prog.com` holding 11 22 02 01 33. */
  lemma Link()
    ensures Ld(ARGV, FS) == Linked("prog.com", [0x11, 0x22, 0x02, 0x01, 0x33])
  {
    Inputs();
    Command();
    Table();
    Image();
    var t := [SENTINEL, Symbol(X, 0x102)];
    assert Valid(t);
    LinkOutcome(ARGV, FS);
  }
}
