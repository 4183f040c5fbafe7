// What the Huffman decoder reads next when all bytes of its input are there, as functions of where it stands.
module HuffCursor {
  import opened Numbers
  import opened HuffTable
  import opened HuffLookup

  // BIT_BUF_SIZE - 7
  const MIN_GET_BITS := 25

  datatype Maybe<T> = Nothing | Just(value: T)

  // The bit reader's working state; marker is 0 while none has been met.
  datatype Cursor = Cursor(pos: nat, marker: Byte, buffer: nat, left: nat, dry: bool)

  // What a reader has come to that goes on as long as bytes arrive is what it would have come to with all of them there;
  // and it has to wait for no more than those.
  ghost predicate Tells<T>(ok: bool, all: bool, f: Maybe<T>, v: T) {
    if ok then f == Just(v) else all ==> f == Nothing
  }

  function Entry<T>(s: seq<T>, i: int, none: T): T {
    if 0 <= i < |s| then s[i] else none
  }

  // ----- bytes -----

  datatype Data = Data(pos: nat, byte: Byte, isMarker: bool)

  // The byte after the fill bytes.
  function PastFill(input: seq<Byte>, pos: nat): (r: Maybe<(nat, Byte)>)
    ensures r.Just? ==> pos < r.value.0 <= |input|
    decreases |input| - pos
  {
    if pos >= |input| then Nothing
    else if input[pos] != 0xFF then Just((pos + 1, input[pos]))
    else PastFill(input, pos + 1)
  }

  function NextData(input: seq<Byte>, pos: nat): (r: Maybe<Data>)
    ensures r.Just? ==> pos < r.value.pos <= |input|
  {
    if pos >= |input| then Nothing
    else if input[pos] != 0xFF then Just(Data(pos + 1, input[pos], false))
    else
      match PastFill(input, pos + 1)
      case Nothing => Nothing
      case Just((p, b)) => Just(if b == 0 then Data(p, 0xFF, false) else Data(p, b, true))
  }

  function Loaded(c: Cursor, data: Data): Cursor {
    if data.isMarker then c.(pos := data.pos, marker := data.byte)
    else c.(pos := data.pos, buffer := (c.buffer * 0x100 + data.byte) % 0x1_0000_0000, left := c.left + 8)
  }

  function Load(input: seq<Byte>, c: Cursor): (r: Maybe<Cursor>)
    ensures r.Just? ==> r.value.left >= c.left
    decreases |input| - c.pos
  {
    if c.left >= MIN_GET_BITS || c.marker != 0 then Just(c)
    else
      match NextData(input, c.pos)
      case Nothing => Nothing
      case Just(data) => Load(input, Loaded(c, data))
  }

  // ----- bits -----

  function Padded(c: Cursor, nbits: nat): (r: Cursor)
    requires nbits <= MIN_GET_BITS
    ensures r.left >= nbits
  {
    if nbits > c.left
    then c.(buffer := c.buffer * Pow2(MIN_GET_BITS - c.left) % 0x1_0000_0000, left := MIN_GET_BITS, dry := true)
    else c
  }

  function Fill(input: seq<Byte>, c: Cursor, nbits: nat): (r: Maybe<Cursor>)
    requires nbits <= MIN_GET_BITS
    ensures r.Just? ==> r.value.left >= nbits
  {
    match Load(input, c)
    case Nothing => Nothing
    case Just(full) => Just(Padded(full, nbits))
  }

  function Need(input: seq<Byte>, c: Cursor, n: nat): (r: Maybe<Cursor>)
    requires n <= MIN_GET_BITS
    ensures r.Just? ==> r.value.left >= n
  {
    if c.left < n then Fill(input, c, n) else Just(c)
  }

  function Peek(c: Cursor, n: nat): nat
    requires n <= c.left
  {
    c.buffer / Pow2(c.left - n) % Pow2(n)
  }

  function Drop(c: Cursor, n: nat): Cursor
    requires n <= c.left
  {
    c.(left := c.left - n)
  }

  function Bits(input: seq<Byte>, c: Cursor, n: nat): Maybe<(Cursor, nat)>
    requires n <= MIN_GET_BITS
  {
    match Need(input, c, n)
    case Nothing => Nothing
    case Just(h) => Just((Drop(h, n), Peek(h, n)))
  }

  // ----- symbols -----

  // The bit-serial search with l bits read, which are worth code.
  function Search(input: seq<Byte>, tbl: JHuffTbl, d: DDerived, c: Cursor, l: nat, code: nat): Maybe<(Cursor, Byte)>
    decreases 17 - l
  {
    if l > 16 then Just((c, 0))
    else if code <= Entry(d.maxcode, l, 0) then Just((c, Entry(tbl.huffval, code + Entry(d.valoffset, l, 0), 0)))
    else
      match Onward(input, c, code)
      case Nothing => Nothing
      case Just((next, more)) => Search(input, tbl, d, next, l + 1, more)
  }

  // The value with one more bit.
  function Onward(input: seq<Byte>, c: Cursor, code: nat): Maybe<(Cursor, nat)> {
    match Bits(input, c, 1)
    case Nothing => Nothing
    case Just((next, b)) => Just((next, code * 2 + b))
  }

  lemma SearchOn(input: seq<Byte>, tbl: JHuffTbl, d: DDerived, c: Cursor, l: nat, code: nat)
    requires |d.maxcode| == 18 && l <= 17 && code > d.maxcode[l]
    ensures l <= 16 ==> var more := Onward(input, c, code);
      Search(input, tbl, d, c, l, code) == if more.Nothing? then Nothing else Search(input, tbl, d, more.value.0, l + 1, more.value.1)
  {
  }

  lemma SearchEnds(input: seq<Byte>, tbl: JHuffTbl, d: DDerived, c: Cursor, l: nat, code: nat)
    requires |d.maxcode| == 18 && |d.valoffset| == 17 && l <= 17 && code <= d.maxcode[l]
    ensures Search(input, tbl, d, c, l, code) == Just((c, if l > 16 then 0 else Entry(tbl.huffval, code + d.valoffset[l], 0)))
  {
  }

  function Slow(input: seq<Byte>, tbl: JHuffTbl, d: DDerived, c: Cursor, minBits: nat): Maybe<(Cursor, Byte)>
    requires minBits <= MIN_GET_BITS
  {
    match Bits(input, c, minBits)
    case Nothing => Nothing
    case Just((next, code)) => Search(input, tbl, d, next, minBits, code)
  }

  function Fast(input: seq<Byte>, tbl: JHuffTbl, d: DDerived, c: Cursor): Maybe<(Cursor, Byte)>
    requires c.left >= HUFF_LOOKAHEAD
  {
    var look := Peek(c, HUFF_LOOKAHEAD);
    var nb := Entry(d.lookNbits, look, 0);
    if 0 < nb <= c.left then Just((Drop(c, nb), Entry(d.lookSym, look, 0)))
    else Slow(input, tbl, d, c, HUFF_LOOKAHEAD + 1)
  }

  function Symbol(input: seq<Byte>, tbl: JHuffTbl, d: DDerived, c: Cursor): Maybe<(Cursor, Byte)> {
    match if c.left < HUFF_LOOKAHEAD then Fill(input, c, 0) else Just(c)
    case Nothing => Nothing
    case Just(h) => if h.left < HUFF_LOOKAHEAD then Slow(input, tbl, d, h, 1) else Fast(input, tbl, d, h)
  }
}
