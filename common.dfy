/** Small vocabulary shared by every part of the linker model. */
module Base {

  /** One octet of an object stream or of the output image (`fgetc` and
      `fputc` traffic in `unsigned char` values). */
  type Byte = b: int | 0 <= b < 256

  /** `USHRT_MAX` of limits.h: the largest 16-bit address. */
  const USHRT_MAX: int := 0xFFFF

  datatype Option<+T> = None | Some(value: T)

  function Min(a: int, b: int): int { if a <= b then a else b }

  /** Concatenation regroups freely; the proofs that split and rejoin
      record runs, tables and images use this one statement of it. */
  lemma Assoc<T>(a: seq<T>, b: seq<T>, c: seq<T>)
    ensures (a + b) + c == a + (b + c)
  {
  }
}

/** What the linker reports on failure (the usage text directly, every
    other message through its `error` routine), and how a pass ends. */
module Diagnostics {
  import opened Base

  /** One constructor per distinct message on the modelled paths of l80.c
      (the allocation failures and the output-file failure are not among
      them); every one of them makes the process exit with status 1. */
  datatype Error =
    | Usage                                  // fewer than two operands
    | BadSuffix                              // input not ending in .obj/.OBJ/.lib/.LIB
    | OutputNameTooLong(base: string)        // output base name over 8 characters
    | CouldNotOpen(path: string)             // an input file cannot be opened
    | InvalidDataByte                        // 0x00 as the last byte of a file
    | UnterminatedSymbol                     // pass 1: name without its closing control byte
    | UnterminatedDeclaration                // pass 2: declaration without its closing 0x01
    | UnterminatedReference                  // pass 2: reference without its closing 0x02
    | EmptySymbol                            // pass 1: declaration whose key is empty
    | DuplicateSymbol(name: seq<Byte>)       // pass 1: key already in the table
    | AddressOverflow                        // pass 1: address counter above 0xFFFF
    | UndefinedReference(name: seq<Byte>)    // pass 2: key not in the table
    | BinaryTooLarge                         // pass 2: output byte count reached 0xFF00
    | UnknownControlByte(control: Byte)      // any other control byte

  /** How a pass (or a stretch of one) ended: it ran out of records, it met
      the CP/M end-of-file byte, or it stopped on an error. */
  datatype Status = Completed | Halted | Failed(error: Error)

  /** A status together with the pass state at the point where it stopped. */
  datatype Outcome<S> = Outcome(status: Status, state: S)
}
