// What a Huffman-coded segment is made of: symbols of a table and raw bits, packed into bytes.
module HuffTokens {
  import opened Numbers
  import opened BitStrings
  import opened HuffTable

  // A symbol of one of the tables, or the n low bits of v.
  datatype Token = Sym(tbl: nat, s: Byte) | Raw(v: nat, n: nat)

  const NUM_HUFF_TBLS := 4

  // DC tables come first, then AC tables.
  function DcTable(t: nat): nat { t }
  function AcTable(t: nat): nat { NUM_HUFF_TBLS + t }

  // The derived tables of the coder.
  type Env = seq<CDerived>

  ghost predicate GoodEnv(env: Env) {
    |env| == 2 * NUM_HUFF_TBLS && forall t :: 0 <= t < |env| ==> GoodDerived(env[t])
  }

  // Every code fits its size, and no size is above 16.
  ghost predicate GoodDerived(d: CDerived) {
    && |d.ehufco| == |d.ehufsi| == 256
    && forall s :: 0 <= s < 256 ==> d.ehufsi[s] <= 16 && (d.ehufsi[s] != 0 ==> d.ehufco[s] < Pow2(d.ehufsi[s]))
  }

  // Size 0 marks a symbol that has no code.
  predicate HasCode(env: Env, t: Token)
    requires GoodEnv(env)
  {
    match t
    case Sym(tbl, s) => tbl < |env| && env[tbl].ehufsi[s] != 0
    case Raw(v, n) => n != 0
  }

  ghost predicate Codable(env: Env, ts: seq<Token>)
    requires GoodEnv(env)
  {
    forall i :: 0 <= i < |ts| ==> HasCode(env, ts[i])
  }

  function TokenBits(env: Env, t: Token): seq<Bit>
    requires GoodEnv(env)
  {
    match t
    case Sym(tbl, s) => if tbl < |env| then BitsOf(env[tbl].ehufco[s], env[tbl].ehufsi[s]) else []
    case Raw(v, n) => BitsOf(v, n)
  }

  function TokensBits(env: Env, ts: seq<Token>): seq<Bit>
    requires GoodEnv(env)
  {
    if ts == [] then [] else TokenBits(env, ts[0]) + TokensBits(env, ts[1..])
  }

  lemma {:induction false} TokensConcat(env: Env, a: seq<Token>, b: seq<Token>)
    requires GoodEnv(env)
    ensures TokensBits(env, a + b) == TokensBits(env, a) + TokensBits(env, b)
  {
    if a == [] {
      assert a + b == b;
    } else {
      assert (a + b)[1..] == a[1..] + b;
      TokensConcat(env, a[1..], b);
    }
  }

  lemma TokensOne(env: Env, t: Token)
    requires GoodEnv(env)
    ensures TokensBits(env, [t]) == TokenBits(env, t)
  {
    assert [t][1..] == [];
  }

  // One raw token for each bit of a buffer.
  function Raws(bits: seq<Bit>): (r: seq<Token>)
    ensures |r| == |bits|
  {
    seq(|bits|, i requires 0 <= i < |bits| => Raw(bits[i], 1))
  }

  lemma RawsConcat(a: seq<Bit>, b: seq<Bit>)
    ensures Raws(a + b) == Raws(a) + Raws(b)
  {
  }

  // How often symbol s of table t occurs.
  function Count(ts: seq<Token>, t: nat, s: Byte): nat {
    if ts == [] then 0 else (if ts[0] == Sym(t, s) then 1 else 0) + Count(ts[1..], t, s)
  }

  lemma {:induction false} CountSnoc(ts: seq<Token>, x: Token, t: nat, s: Byte)
    ensures Count(ts + [x], t, s) == Count(ts, t, s) + if x == Sym(t, s) then 1 else 0
  {
    if ts == [] {
      assert ts + [x] == [x] && [x][1..] == [];
    } else {
      assert (ts + [x])[1..] == ts[1..] + [x];
      CountSnoc(ts[1..], x, t, s);
    }
  }

  // A symbol was counted just when it occurs.
  lemma {:induction false} CountIn(ts: seq<Token>, t: nat, s: Byte)
    ensures Count(ts, t, s) > 0 <==> Sym(t, s) in ts
  {
    if ts != [] {
      CountIn(ts[1..], t, s);
      assert ts == [ts[0]] + ts[1..];
    }
  }

  // ----- bytes -----

  function BytesBits(code: seq<Byte>): seq<Bit> {
    if code == [] then [] else BytesBits(code[..|code| - 1]) + BitsOf(code[|code| - 1], 8)
  }

  lemma BytesNone()
    ensures BytesBits([]) == []
  {
  }

  lemma BytesSnoc(code: seq<Byte>, b: Byte)
    ensures BytesBits(code + [b]) == BytesBits(code) + BitsOf(b, 8)
  {
    assert (code + [b])[..|code|] == code;
  }

  lemma {:induction false} BytesCons(b: Byte, code: seq<Byte>)
    ensures BytesBits([b] + code) == BitsOf(b, 8) + BytesBits(code)
  {
    if code == [] {
      assert [b] + code == [] + [b];
      BytesSnoc([], b);
      assert [] + BitsOf(b, 8) == BitsOf(b, 8);
    } else {
      hide BitsOf;
      var front, last := code[..|code| - 1], code[|code| - 1];
      BytesCons(b, front);
      assert [b] + code == [b] + front + [last];
      BytesSnoc([b] + front, last);
    }
  }
}
