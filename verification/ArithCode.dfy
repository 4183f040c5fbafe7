// Byte strings of an arithmetic-coded segment: values, carries, stuffing.
module ArithCode {
  import opened Numbers
  import opened ArithInterval

  function Zeros(n: nat): (r: seq<Byte>)
    ensures |r| == n
  {
    seq(n, _ => 0)
  }

  function Ones(n: nat): (r: seq<Byte>)
    ensures |r| == n
  {
    seq(n, _ => 0xFF)
  }

  function Val(code: seq<Byte>): nat { Prefix(code, |code|) }

  lemma ValAppend(code: seq<Byte>, b: Byte)
    ensures Val(code + [b]) == 0x100 * Val(code) + b
  {
    PrefixLocal(code + [b], code, |code|);
  }

  // A carry turns stacked 0xFF bytes into zeros and bumps the byte before them.
  lemma {:induction false} ValCarry(code: seq<Byte>, b: Byte, n: nat)
    requires b < 0xFF
    ensures Val(code + [b + 1] + Zeros(n)) == Val(code + [b] + Ones(n)) + 1
  {
    if n == 0 {
      ValAppend(code, b);
      ValAppend(code, b + 1);
      assert code + [b + 1] + Zeros(0) == code + [b + 1] && code + [b] + Ones(0) == code + [b];
    } else {
      ValCarry(code, b, n - 1);
      ValAppend(code + [b + 1] + Zeros(n - 1), 0);
      ValAppend(code + [b] + Ones(n - 1), 0xFF);
      assert code + [b + 1] + Zeros(n) == code + [b + 1] + Zeros(n - 1) + [0];
      assert code + [b] + Ones(n) == code + [b] + Ones(n - 1) + [0xFF];
    }
  }

  lemma {:induction false} ValOnes(n: nat)
    ensures Val(Ones(n)) + 1 == Pow2(8 * n)
  {
    if n > 0 {
      ValOnes(n - 1);
      ValAppend(Ones(n - 1), 0xFF);
      assert Ones(n) == Ones(n - 1) + [0xFF];
      Pow2Plus(8, 8 * n - 8);
      assert Pow2(8) == 0x100;
    }
  }

  // ----- byte stuffing, section D.1.6 of ITU-T T.81 -----

  function Stuff(code: seq<Byte>): seq<Byte> {
    if code == [] then []
    else (if code[0] == 0xFF then [0xFF, 0] else [code[0]]) + Stuff(code[1..])
  }

  lemma {:induction false} StuffConcat(a: seq<Byte>, b: seq<Byte>)
    ensures Stuff(a + b) == Stuff(a) + Stuff(b)
  {
    if a == [] {
      assert a + b == b;
    } else {
      assert (a + b)[1..] == a[1..] + b;
      StuffConcat(a[1..], b);
    }
  }

  // No marker can be taken to be inside the stuffed bytes: behind each 0xFF there is a zero.
  lemma {:induction false} NoMarkerInside(code: seq<Byte>, i: nat)
    requires i < |Stuff(code)| && Stuff(code)[i] == 0xFF
    ensures i + 1 < |Stuff(code)| && Stuff(code)[i + 1] == 0
  {
    var n := if code[0] == 0xFF then 2 else 1;
    if i >= n { NoMarkerInside(code[1..], i - n); }
  }

  lemma StuffAppend(code: seq<Byte>, b: Byte)
    ensures Stuff(code + [b]) == Stuff(code) + if b == 0xFF then [0xFF, 0] else [b]
  {
    StuffConcat(code, [b]);
    assert [b][1..] == [];
  }

  // The data bytes a reader sees up to the first marker: stuffed zeros go away, fill bytes
  // are swallowed, nothing is seen from the marker on.
  function Unstuff(input: seq<Byte>): seq<Byte> {
    if input == [] then []
    else if input[0] != 0xFF then [input[0]] + Unstuff(input[1..])
    else AfterFF(input[1..])
  }

  function AfterFF(input: seq<Byte>): seq<Byte> {
    if input == [] then []
    else if input[0] == 0xFF then AfterFF(input[1..])
    else if input[0] == 0 then [0xFF] + Unstuff(input[1..])
    else []
  }

  // A marker ends the data.
  predicate Ends(input: seq<Byte>) {
    input != [] && if input[0] != 0xFF then Ends(input[1..]) else EndsAfterFF(input[1..])
  }

  predicate EndsAfterFF(input: seq<Byte>) {
    input != [] &&
    if input[0] == 0xFF then EndsAfterFF(input[1..])
    else if input[0] == 0 then Ends(input[1..])
    else true
  }

  // The marker that ends the data, and the bytes after it.
  function MarkerAt(input: seq<Byte>): (Byte, seq<Byte>)
    requires Ends(input)
  {
    if input[0] != 0xFF then MarkerAt(input[1..]) else MarkerAfterFF(input[1..])
  }

  function MarkerAfterFF(input: seq<Byte>): (Byte, seq<Byte>)
    requires EndsAfterFF(input)
  {
    if input[0] == 0xFF then MarkerAfterFF(input[1..])
    else if input[0] == 0 then MarkerAt(input[1..])
    else (input[0], input[1..])
  }

  lemma {:induction false} UnstuffStuff(code: seq<Byte>, marker: Byte, rest: seq<Byte>)
    requires 0 < marker < 0xFF
    ensures var s := Stuff(code) + [0xFF, marker] + rest;
      Unstuff(s) == code && Ends(s) && MarkerAt(s) == (marker, rest)
    decreases |code|
  {
    var s := Stuff(code) + [0xFF, marker] + rest;
    if code == [] {
      assert s[1..] == [marker] + rest;
      assert ([marker] + rest)[1..] == rest;
    } else {
      var t := Stuff(code[1..]) + [0xFF, marker] + rest;
      UnstuffStuff(code[1..], marker, rest);
      if code[0] == 0xFF {
        assert s[1..] == [0] + t;
        assert ([0] + t)[1..] == t;
      } else {
        assert s[1..] == t;
      }
    }
  }

  // The bytes of one scan segment: they code the decisions ds from fresh statistics, and no code byte is
  // a trailing zero.
  ghost predicate Segment(bytes: seq<Byte>, ds: seq<Decision>) {
    && InArea(ds, AREA_SIZE)
    && exists code :: bytes == Stuff(code) && (code != [] ==> code[|code| - 1] != 0)
                      && Holds(code, Run(Coder(START, FreshStats()), ds).iv)
  }
}
