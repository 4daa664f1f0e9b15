/** The primitives of the `nom` parser-combinator library that the LXOB
    decoder is built from, over complete (non-streaming) byte input:
    `take`, `take_until` and `be_u32`/`be_f32`.

    Every decoder works on a slice of one immutable buffer. A slice
    `input[at..]` is modelled by the buffer `input` and the offset `at`;
    a parser returns the offset `next` at which its remains `input[next..]`
    start, and the decoded value, or an error. */
module Nom {

  /** An unsigned 8-bit value. */
  type Byte = b: int | 0 <= b < 0x100

  /** An unsigned 32-bit value. */
  type U32 = n: int | 0 <= n < 0x1_0000_0000

  datatype Option<+T> = None | Some(value: T)

  /** The kinds of recoverable error (nom's `Err::Error`), named by this
      model; nom's `Count` kind, which `count` adds on top of the error of a
      point that is cut short, is folded into `Eof`. */
  datatype ErrorKind =
    | Eof              // fewer bytes than `take` or `be_u32` needs (nom's `Eof`)
    | PatternNotFound  // `take_until` did not find its pattern (nom's `TakeUntil`)
    | NoProgress       // `many1` saw its parser succeed without consuming input (nom's `Many1`)

  /** The places where the decoder aborts instead of returning an error;
      each is an explicit error outcome in this model. */
  datatype PanicReason =
    | InvalidUtf8      // `to_str` on bytes that are not UTF-8
    | PointsSize       // one of the two asserts at the head of `parse_points`
    | TagMismatch      // the `assert_eq!` on the chunk tag in `parse_chunk_pnts`
    | IndexOutOfRange  // slicing past the end of the input in `is_lxob`
    | ExpectFailed     // the `.expect` on the tag parse in `is_lxob`

  /** A recoverable nom error, or a panic of the decoder. */
  datatype Error = NomError(kind: ErrorKind) | Panic(reason: PanicReason)

  /** `IResult<&[u8], T>`: where the remains start and the value, or an error. */
  datatype Parsed<+T> = Ok(next: nat, value: T) | Err(error: Error)

  /** A value or an error, for operations that do not return remains. */
  datatype Result<+T> = Success(value: T) | Failure(error: Error)

  /** The value of four bytes read most significant first. */
  function FromBigEndian(b: seq<Byte>): U32
    requires |b| == 4
  {
    (b[0] as int) * 0x100_0000 + (b[1] as int) * 0x1_0000 + (b[2] as int) * 0x100 + (b[3] as int)
  }

  /** `bytes::complete::take(n)`: the next `n` bytes. */
  function Take(input: seq<Byte>, at: nat, n: nat): (r: Parsed<seq<Byte>>)
    ensures r.Ok? <==> at + n <= |input|
    ensures r.Ok? ==> r.next == at + n && r.value == input[at..r.next]
    ensures r.Err? ==> r.error == NomError(Eof)
  {
    if at + n <= |input| then Ok(at + n, input[at..at + n]) else Err(NomError(Eof))
  }

  /** `number::complete::be_u32`; `be_f32` reads the same four bytes and
      reinterprets their bit pattern. */
  function BeU32(input: seq<Byte>, at: nat): (r: Parsed<U32>)
    ensures r.Ok? <==> at + 4 <= |input|
    ensures r.Ok? ==> r.next == at + 4 && r.value == FromBigEndian(input[at..at + 4])
    ensures r.Err? ==> r.error == NomError(Eof)
  {
    var bytes := Take(input, at, 4);
    if bytes.Err? then Err(bytes.error) else Ok(bytes.next, FromBigEndian(bytes.value))
  }

  /** Whether `pat` occurs in `s` starting at offset `i`. */
  predicate OccursAt(pat: seq<Byte>, s: seq<Byte>, i: nat) {
    i + |pat| <= |s| && s[i..i + |pat|] == pat
  }

  /** `k` is the first offset at or after `from` where `pat` occurs in `s`. */
  predicate FirstOccurrence(pat: seq<Byte>, s: seq<Byte>, from: nat, k: nat) {
    from <= k && OccursAt(pat, s, k) && forall j: nat :: from <= j < k ==> !OccursAt(pat, s, j)
  }

  /** The first offset at or after `from` where `pat` occurs in `s`. */
  function FindFrom(pat: seq<Byte>, s: seq<Byte>, from: nat): (r: Option<nat>)
    ensures r.Some? ==> from <= r.value && OccursAt(pat, s, r.value)
    ensures r.Some? ==> forall j: nat :: from <= j < r.value ==> !OccursAt(pat, s, j)
    ensures r.None? ==> forall j: nat :: from <= j ==> !OccursAt(pat, s, j)
    decreases |s| - from
  {
    if from + |pat| > |s| then None
    else if s[from..from + |pat|] == pat then Some(from)
    else FindFrom(pat, s, from + 1)
  }

  /** `bytes::complete::take_until(pat)`: the bytes before the first
      occurrence of `pat`; the remains start at that occurrence. */
  function TakeUntil(pat: seq<Byte>, input: seq<Byte>, at: nat): (r: Parsed<seq<Byte>>)
    ensures r.Ok? <==> exists i: nat :: at <= i && OccursAt(pat, input, i)
    ensures r.Ok? ==> FirstOccurrence(pat, input, at, r.next) && r.value == input[at..r.next]
    ensures r.Err? ==> r.error == NomError(PatternNotFound)
  {
    match FindFrom(pat, input, at)
    case Some(i) => Ok(i, input[at..i])
    case None => Err(NomError(PatternNotFound))
  }

  /** Given the first occurrence of the pattern, `take_until` stops there. */
  lemma TakeUntilAt(pat: seq<Byte>, input: seq<Byte>, at: nat, k: nat)
    requires FirstOccurrence(pat, input, at, k)
    ensures TakeUntil(pat, input, at) == Ok(k, input[at..k])
  {
    assert OccursAt(pat, input, k);
  }
}
