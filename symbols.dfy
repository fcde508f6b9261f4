/** The symbol table: the global list `head` of l80.c, seeded by `main`
    with the sentinel "@" at address 0, appended at its tail by pass 1 and
    scanned from its head by both passes. The linked cells are modelled as
    a sequence of entries in list order. */
module Symbols {
  import opened Base

  datatype Symbol = Symbol(name: seq<Byte>, addr: int)

  /** The entry `main` links in before pass 1: name "@", address 0. */
  const SENTINEL: Symbol := Symbol([0x40], 0)

  /** Some entry carries the name `key`. */
  predicate Declared(t: seq<Symbol>, key: seq<Byte>) {
    exists j :: 0 <= j < |t| && t[j].name == key
  }

  /** Position of the first entry named `key`, scanning from the head. */
  function FindIndex(t: seq<Symbol>, key: seq<Byte>): (r: Option<nat>)
    ensures r.Some? ==> r.value < |t| && t[r.value].name == key
    ensures r.Some? ==> forall j :: 0 <= j < r.value ==> t[j].name != key
    ensures r.None? ==> !Declared(t, key)
  {
    if t == [] then None
    else if t[0].name == key then Some(0)
    else match FindIndex(t[1..], key)
      case None => None
      case Some(i) => Some(i + 1)
  }

  /** Address of the first entry named `key`, if there is one. */
  function Resolve(t: seq<Symbol>, key: seq<Byte>): (a: Option<int>)
    ensures a.Some? <==> Declared(t, key)
  {
    match FindIndex(t, key)
    case None => None
    case Some(i) => Some(t[i].addr)
  }

  /** No two entries share a name. */
  predicate Unique(t: seq<Symbol>) {
    forall i, j :: 0 <= i < j < |t| ==> t[i].name != t[j].name
  }

  /** What every table built by the linker satisfies: the sentinel at the
      head, distinct non-empty names, 16-bit addresses. */
  predicate Valid(t: seq<Symbol>) {
    && |t| > 0 && t[0] == SENTINEL
    && Unique(t)
    && forall i :: 0 <= i < |t| ==> t[i].name != [] && 0 <= t[i].addr <= USHRT_MAX
  }

  /** With distinct names, the scan order does not matter: every entry is
      what its name resolves to. */
  lemma ResolveUnique(t: seq<Symbol>, i: nat)
    requires Unique(t) && i < |t|
    ensures Resolve(t, t[i].name) == Some(t[i].addr)
  {
    var j := FindIndex(t, t[i].name).value;
    assert !(j < i) && !(i < j);
  }

  /** The sentinel resolves to address 0 and the empty key to nothing. */
  lemma ValidResolves(t: seq<Symbol>)
    requires Valid(t)
    ensures Resolve(t, SENTINEL.name) == Some(0)
    ensures Resolve(t, []) == None
  {
  }

  /** A table that takes in an empty name, or a name it already holds,
      is not valid, whatever follows. */
  lemma ExtendInvalid(t: seq<Symbol>, s: Symbol, more: seq<Symbol>)
    requires s.name == [] || Declared(t, s.name)
    ensures !Valid(t + [s] + more)
  {
    var u := t + [s] + more;
    assert u[|t|] == s;
    if s.name != [] {
      var j :| 0 <= j < |t| && t[j].name == s.name;
      assert u[j] == t[j];
    }
  }

  /** Appending a fresh, non-empty name with a 16-bit address keeps a table valid. */
  lemma AppendValid(t: seq<Symbol>, key: seq<Byte>, addr: int)
    requires Valid(t) && key != [] && !Declared(t, key) && 0 <= addr <= USHRT_MAX
    ensures Valid(t + [Symbol(key, addr)])
  {
    var u := t + [Symbol(key, addr)];
    forall i, j | 0 <= i < j < |u| ensures u[i].name != u[j].name {
      if j == |t| {
        assert u[i] == t[i];
      }
    }
  }

  /** The table as l80.c keeps it: a list that only grows at its tail. */
  class SymbolTable {
    var entries: seq<Symbol>

    /** `main`'s pre-seeding of `head` with the sentinel. */
    constructor ()
      ensures entries == [SENTINEL]
    {
      entries := [SENTINEL];
    }

    /** The duplicate scan of pass 1 followed by the append at the tail:
        a name already present anywhere in the list, the sentinel included,
        is refused and leaves the list unchanged. */
    method Declare(key: seq<Byte>, addr: int) returns (duplicate: bool)
      modifies this
      ensures duplicate == Declared(old(entries), key)
      ensures entries == if duplicate then old(entries) else old(entries) + [Symbol(key, addr)]
    {
      var i := 0;
      while i < |entries|
        invariant 0 <= i <= |entries|
        invariant entries == old(entries)
        invariant forall j :: 0 <= j < i ==> entries[j].name != key
      {
        if entries[i].name == key {
          return true;
        }
        i := i + 1;
      }
      entries := entries + [Symbol(key, addr)];
      return false;
    }

    /** The lookup of pass 2: scan from the head and stop at the first
        entry whose name equals the key. */
    method Lookup(key: seq<Byte>) returns (found: bool, addr: int)
      ensures found == Declared(entries, key)
      ensures found ==> Resolve(entries, key) == Some(addr)
    {
      var i := 0;
      while i < |entries| && entries[i].name != key
        invariant 0 <= i <= |entries|
        invariant forall j :: 0 <= j < i ==> entries[j].name != key
      {
        i := i + 1;
      }
      if i == |entries| {
        return false, 0;
      }
      assert FindIndex(entries, key) == Some(i);
      return true, entries[i].addr;
    }
  }
}
