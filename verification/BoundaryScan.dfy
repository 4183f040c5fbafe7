// The multipart parser's search for the next boundary, over a stream that takes bytes back.
module BoundaryScan {
  import opened Numbers

  const PUTBACK := 1024
  const CR: Byte := 13
  const LF: Byte := 10
  const DASH: Byte := 45

  // ----- the ring -----

  // What is in a ring from one place up to another.
  function Slice(s: seq<Byte>, r: nat, w: nat): seq<Byte>
    requires r <= |s| && w <= |s|
  {
    if r <= w then s[r..w] else s[r..] + s[..w]
  }

  lemma Regrouped(a: seq<Byte>, b: seq<Byte>, c: seq<Byte>)
    ensures a + b + c == a + (b + c)
  {
  }

  lemma FirstOf(s: seq<Byte>, r: nat, w: nat)
    requires r < w <= |s|
    ensures s[r..w] == [s[r]] + s[r + 1..w]
  {
  }

  function After(r: nat): nat { if r == PUTBACK - 1 then 0 else r + 1 }

  lemma AfterIs(r: nat)
    requires r < PUTBACK
    ensures (r + 1) % PUTBACK == After(r)
  {
  }

  lemma SlicePop(s: seq<Byte>, r: nat, w: nat)
    requires |s| == PUTBACK && r < PUTBACK && w < PUTBACK && r != w
    ensures Slice(s, r, w) == [s[r]] + Slice(s, After(r), w)
  {
    if r < w {
      FirstOf(s, r, w);
    } else {
      FirstOf(s, r, PUTBACK);
      assert s[r..] == s[r..PUTBACK] && s[r + 1..] == s[r + 1..PUTBACK];
      if r < PUTBACK - 1 {
        Regrouped([s[r]], s[r + 1..], s[..w]);
      } else {
        assert s[r + 1..] == [] && s[0..w] == s[..w];
      }
    }
  }

  lemma SlicePush(s: seq<Byte>, r: nat, w: nat, b: Byte)
    requires |s| == PUTBACK && r < PUTBACK && w < PUTBACK && |Slice(s, r, w)| + 1 < PUTBACK
    ensures Slice(s[w := b], r, After(w)) == Slice(s, r, w) + [b]
  {
    var t := s[w := b];
    if r <= w {
      assert t[r..w + 1] == s[r..w] + [b];
      if w == PUTBACK - 1 { assert t[r..] == t[r..w + 1] && t[..0] == []; }
    } else {
      assert t[..w + 1] == s[..w] + [b] && t[r..] == s[r..];
      Regrouped(s[r..], s[..w], [b]);
    }
  }

  // ----- the stream -----

  class MpStream {
    // What the input will deliver, exactly as many bytes as were declared.
    const data: seq<Byte>
    var pos: nat
    var putback: array<Byte>
    var readPos: nat
    var writePos: nat
    var offset: int

    constructor (data: seq<Byte>)
      ensures Valid() && fresh(putback) && Held() == [] && Remaining() == data
    {
      this.data := data;
      pos, readPos, writePos, offset := 0, 0, 0, 0;
      putback := new Byte[PUTBACK](_ => 0);
    }

    ghost predicate Ring()
      reads this`putback, this`readPos, this`writePos
    {
      putback.Length == PUTBACK && readPos < PUTBACK && writePos < PUTBACK
    }

    // The bytes put back and not yet read again.
    ghost function Held(): seq<Byte>
      requires Ring()
      reads this`putback, this`readPos, this`writePos, putback
    {
      Slice(putback[..], readPos, writePos)
    }

    // The offset does not count what is read again; it never runs ahead.
    ghost predicate Valid()
      reads this, putback
      ensures Valid() ==> Ring()
    {
      Ring() && pos <= |data| && offset <= pos - |Held()|
    }

    ghost function Remaining(): seq<Byte>
      requires Valid()
      reads this, putback
    {
      Held() + data[pos..]
    }

    // As many of the bytes put back as are wanted.
    method ReadHeld(n: nat) returns (bytes: seq<Byte>)
      requires Ring()
      modifies this`readPos
      ensures Ring() && |bytes| == (if n <= |old(Held())| then n else |old(Held())|) && old(Held()) == bytes + Held()
    {
      hide MpStream.Held;
      bytes := [];
      while |bytes| < n && readPos != writePos
        invariant |bytes| <= n && Ring() && old(Held()) == bytes + Held()
        decreases n - |bytes|
      {
        var b := PopByte();
        Regrouped(bytes, [b], Held());
        bytes := bytes + [b];
      }
      if readPos == writePos { NoneHeld(); }
    }

    lemma NoneHeld()
      requires Ring() && readPos == writePos
      ensures Held() == []
    {
    }

    method PopByte() returns (b: Byte)
      requires Ring() && readPos != writePos
      modifies this`readPos
      ensures Ring() && old(Held()) == [b] + Held()
    {
      SlicePop(putback[..], readPos, writePos);
      AfterIs(readPos);
      hide Slice;
      b := putback[readPos];
      readPos := (readPos + 1) % PUTBACK;
    }

    // The bytes put back come first, then the input.
    method Read(n: nat) returns (got: int, bytes: seq<Byte>)
      requires Valid()
      modifies this`pos, this`readPos, this`offset
      ensures Valid() && |bytes| == (if n <= |old(Remaining())| then n else |old(Remaining())|)
      ensures old(Remaining()) == bytes + Remaining() && |Held()| == (if n <= |old(Held())| then |old(Held())| - n else 0)
      ensures |bytes| <= |old(Held())| ==> old(Held()) == bytes + Held()
      ensures got == |bytes| || (got == -1 && bytes == [])
    {
      hide Slice;
      ghost var held, rest := Held(), data[pos..];
      bytes := ReadHeld(n);
      got := |bytes|;
      var len := n - got;
      if len > |data| - offset {
        len := |data| - offset;
      }
      if len > 0 {
        var fgot := if len <= |data| - pos then len else |data| - pos;
        assert rest == data[pos..pos + fgot] + data[pos + fgot..];
        bytes := bytes + data[pos..pos + fgot];
        pos := pos + fgot;
        got := got + fgot;
        offset := offset + got;
      } else if got == 0 && n > 0 {
        got := -1;
      }
    }

    method PushByte(b: Byte)
      requires Ring() && |Held()| + 1 < PUTBACK
      modifies this`writePos, putback
      ensures Ring() && Held() == old(Held()) + [b]
    {
      SlicePush(putback[..], readPos, writePos, b);
      AfterIs(writePos);
      hide Slice;
      ghost var was := putback[..];
      putback[writePos] := b;
      assert putback[..] == was[writePos := b];
      writePos := (writePos + 1) % PUTBACK;
    }

    // Behind what has been put back before.
    method PutBack(bytes: seq<Byte>)
      requires Valid() && |Held()| + |bytes| < PUTBACK
      modifies this`writePos, this`offset, putback
      ensures Valid() && putback == old(putback) && Held() == old(Held()) + bytes && Remaining() == old(Held()) + bytes + data[pos..]
    {
      hide Slice;
      offset := offset - |bytes|;
      var i := 0;
      while i < |bytes|
        invariant 0 <= i <= |bytes| && Ring() && Held() == old(Held()) + bytes[..i] && offset == old(offset) - |bytes|
      {
        PushByte(bytes[i]);
        assert bytes[..i] + [bytes[i]] == bytes[..i + 1];
        i := i + 1;
      }
      assert bytes[..i] == bytes;
    }
  }

  // ----- the search -----

  datatype ParseResult = Success | IoError

  // What comes before the body of a part, or after it.
  function Pattern(boundary: seq<Byte>, first: bool): seq<Byte> {
    if first then [DASH, DASH] + boundary else [CR, LF, DASH, DASH] + boundary
  }

  ghost predicate OccursAt(text: seq<Byte>, pattern: seq<Byte>, k: int) {
    0 <= k && k + |pattern| <= |text| && text[k..k + |pattern|] == pattern
  }

  // The leftmost occurrence.
  ghost predicate FirstAt(text: seq<Byte>, pattern: seq<Byte>, k: int) {
    OccursAt(text, pattern, k) && forall j :: 0 <= j < k ==> !OccursAt(text, pattern, j)
  }

  // What the two bytes behind the boundary leave: a newline goes, dashes stay, and so does one dash with what follows it;
  // any other two bytes are lost.
  ghost function Behind(rest: seq<Byte>): seq<Byte>
    requires |rest| >= 2
  {
    if rest[0] == DASH then rest else rest[2..]
  }

  // Nothing that belongs to the part behind the boundary is lost: a newline is all that goes.
  ghost predicate NothingLost(rest: seq<Byte>)
    requires |rest| >= 2
  {
    Behind(rest) == rest || rest == [CR, LF] + Behind(rest)
  }

  // That is so just if a newline follows the boundary, or a dash.
  lemma LosesNothing(rest: seq<Byte>)
    requires |rest| >= 2
    ensures NothingLost(rest) <==> rest[0] == DASH || (rest[0] == CR && rest[1] == LF)
  {
    assert rest[..2] + rest[2..] == rest;
    if rest[0] != DASH && rest == [CR, LF] + Behind(rest) { assert rest[0] == CR && rest[1] == LF; }
  }

  // Letters behind the boundary are lost, and so is the carriage return of a newline that has a blank before it.
  lemma LosesOthers()
    ensures Behind([0x41, 0x42, 0x43]) == [0x43] && !NothingLost([0x41, 0x42, 0x43])
    ensures Behind([0x20, CR, LF]) == [LF] && !NothingLost([0x20, CR, LF])
  {
    LosesNothing([0x41, 0x42, 0x43]);
    LosesNothing([0x20, CR, LF]);
  }

  // The boundary names no line.
  ghost predicate OneLine(boundary: seq<Byte>) { CR !in boundary && |boundary| + 4 < PUTBACK }

  // A carriage return can only be the last of the bytes held back, or there are two at most.
  ghost predicate Quiet(held: seq<Byte>) { |held| <= 2 || CR !in held[..|held| - 1] }

  // The scan has emitted out, and matched the first n bytes of the pattern after that.
  ghost predicate Midway(text: seq<Byte>, pattern: seq<Byte>, out: seq<Byte>, n: nat, left: seq<Byte>) {
    n <= |pattern| && text == out + pattern[..n] + left && forall j :: 0 <= j < |out| ==> !OccursAt(text, pattern, j)
  }

  lemma ByteAt(text: seq<Byte>, pattern: seq<Byte>, k: nat, n: nat)
    requires n < |pattern|
    ensures OccursAt(text, pattern, k) ==> k + n < |text| && text[k + n] == pattern[n]
  {
    if OccursAt(text, pattern, k) { assert text[k..k + |pattern|][n] == pattern[n]; }
  }

  lemma NoOccurrence(text: seq<Byte>, pattern: seq<Byte>, out: seq<Byte>, n: nat, b: Byte, left: seq<Byte>)
    requires n < |pattern| && text == out + pattern[..n] + ([b] + left) && b != pattern[n]
    ensures !OccursAt(text, pattern, |out|)
  {
    assert text[|out| + n] == b;
    ByteAt(text, pattern, |out|, n);
  }

  // Where the input ends in the middle of a match, the pattern does not occur.
  lemma NowhereLeft(text: seq<Byte>, pattern: seq<Byte>, out: seq<Byte>, n: nat)
    requires n < |pattern| && Midway(text, pattern, out, n, [])
    ensures forall j :: !OccursAt(text, pattern, j)
  {
  }

  lemma MatchMore(text: seq<Byte>, pattern: seq<Byte>, out: seq<Byte>, n: nat, b: Byte, left: seq<Byte>)
    requires n < |pattern| && Midway(text, pattern, out, n, [b] + left) && b == pattern[n]
    ensures Midway(text, pattern, out, n + 1, left)
  {
    assert pattern[..n + 1] == pattern[..n] + [b];
    Regrouped(out + pattern[..n], [b], left);
    Regrouped(out, pattern[..n], [b]);
  }

  // After a false match its first byte is emitted, and the others are read again.
  lemma MatchFails(text: seq<Byte>, pattern: seq<Byte>, out: seq<Byte>, n: nat, b: Byte, left: seq<Byte>)
    requires n < |pattern| && Midway(text, pattern, out, n, [b] + left) && b != pattern[n]
    ensures if n == 0 then Midway(text, pattern, out + [b], 0, left)
            else Midway(text, pattern, out + [pattern[0]], 0, pattern[1..n] + [b] + left)
  {
    NoOccurrence(text, pattern, out, n, b, left);
    if n == 0 {
      assert out + pattern[..0] == out;
      Regrouped(out, [b], left);
      assert out + [b] + pattern[..0] == out + [b];
    } else {
      var more := pattern[1..n] + [b] + left;
      assert pattern[..n] == [pattern[0]] + pattern[1..n];
      Regrouped(pattern[1..n], [b], left);
      Regrouped([pattern[0]], pattern[1..n], [b] + left);
      Regrouped(out, pattern[..n], [b] + left);
      Regrouped(out, [pattern[0]], more);
      assert out + [pattern[0]] + pattern[..0] == out + [pattern[0]];
    }
  }

  lemma Found(text: seq<Byte>, pattern: seq<Byte>, out: seq<Byte>, left: seq<Byte>)
    requires Midway(text, pattern, out, |pattern|, left)
    ensures FirstAt(text, pattern, |out|) && text[..|out|] == out && text[|out| + |pattern|..] == left
  {
    assert pattern[..|pattern|] == pattern;
    assert text == out + pattern + left;
    assert text[|out|..|out| + |pattern|] == pattern;
  }

  lemma OnlyOne(text: seq<Byte>, pattern: seq<Byte>, j: nat, k: nat)
    requires FirstAt(text, pattern, j) && FirstAt(text, pattern, k)
    ensures j == k
  {
  }

  // The ring has room for all that a false match puts back.
  predicate Bounded(held: nat, boffset: nat, size: nat) {
    if boffset < size then held + boffset <= (if size >= 3 then size - 1 else 2) else held <= 2
  }

  // In the middle of a match next to nothing is held back, so that what a false match puts back comes next.
  ghost predicate InOrder(held: seq<Byte>, boffset: nat) {
    Quiet(held) && (boffset > 0 ==> |held| <= 1) && (boffset > 1 ==> held == [])
  }

  lemma StartsQuiet(mp: MpStream, text: seq<Byte>, pattern: seq<Byte>)
    requires mp.Valid() && |mp.Held()| <= 2 && text == mp.Remaining() && |pattern| >= 2
    ensures Midway(text, pattern, [], 0, text) && InOrder(mp.Held(), 0) && Bounded(|mp.Held()|, 0, |pattern|)
  {
    assert [] + pattern[..0] + text == text;
  }

  method ReadOne(mp: MpStream) returns (ok: bool, b: Byte)
    requires mp.Valid()
    modifies mp`pos, mp`readPos, mp`offset
    ensures mp.Valid() && (ok <==> old(mp.Remaining()) != []) && (ok ==> old(mp.Remaining()) == [b] + mp.Remaining())
    ensures old(mp.Held()) != [] ==> ok && old(mp.Held()) == [b] + mp.Held()
    ensures old(mp.Held()) == [] ==> mp.Held() == []
  {
    hide MpStream.Valid, MpStream.Held;
    HeldIsPart(mp);
    var got, d := mp.Read(1);
    ok, b := got == 1, 0;
    if ok {
      b := d[0];
      assert d == [b];
    }
  }

  lemma HeldIsPart(mp: MpStream)
    requires mp.Valid()
    ensures |mp.Held()| <= |mp.Remaining()|
  {
  }

  // All but the first byte of a false match, and the byte that made it false.
  method PutBackMatch(mp: MpStream, pattern: seq<Byte>, boffset: nat, b: Byte)
    requires mp.Valid() && 1 <= boffset < |pattern| && |mp.Held()| + boffset < PUTBACK
    modifies mp`writePos, mp`offset, mp.putback
    ensures mp.Valid() && mp.putback == old(mp.putback) && mp.Held() == old(mp.Held()) + pattern[1..boffset] + [b]
    ensures |mp.Remaining()| == |old(mp.Remaining())| + boffset
    ensures old(mp.Held()) == [] ==> mp.Remaining() == pattern[1..boffset] + [b] + old(mp.Remaining())
  {
    hide MpStream.Held, MpStream.Ring;
    mp.PutBack(pattern[1..boffset]);
    mp.PutBack([b]);
  }

  lemma QuietNext(held: seq<Byte>, b: Byte, left: seq<Byte>)
    requires Quiet(held) && (if held == [] then left == [] else held == [b] + left)
    ensures Quiet(left) && (b == CR ==> |left| <= 1)
  {
    if |held| > 2 {
      assert held[0] == b && held[..|held| - 1] == [b] + left[..|left| - 1];
      assert b in held[..|held| - 1];
    }
  }

  lemma QuietAgain(pattern: seq<Byte>, boffset: nat, b: Byte)
    requires 1 <= boffset < |pattern| && CR !in pattern[1..]
    ensures Quiet([] + pattern[1..boffset] + [b])
  {
    var held := [] + pattern[1..boffset] + [b];
    assert held[..|held| - 1] == pattern[1..boffset];
    forall k | 0 <= k < boffset - 1
      ensures pattern[1..boffset][k] != CR
    {
      assert pattern[1..][k] == pattern[1..boffset][k];
    }
  }

  // One byte more.
  method Step(mp: MpStream, pattern: seq<Byte>, boffset: nat, out: seq<Byte>, ghost text: seq<Byte>, ghost sure: bool)
    returns (ok: bool, newOffset: nat, newOut: seq<Byte>)
    requires mp.Valid() && boffset < |pattern| < PUTBACK && Bounded(|mp.Held()|, boffset, |pattern|) && |mp.Remaining()| + boffset + |out| == |text|
    requires sure ==> Midway(text, pattern, out, boffset, mp.Remaining()) && InOrder(mp.Held(), boffset) && CR !in pattern[1..] && pattern[0] == CR
    modifies mp, mp.putback
    ensures mp.Valid() && mp.putback == old(mp.putback) && newOffset <= |pattern| && Bounded(|mp.Held()|, newOffset, |pattern|)
    ensures ok ==> |mp.Remaining()| + newOffset + |newOut| == |text| && (|newOut| > |out| || (newOut == out && newOffset == boffset + 1))
    ensures ok && sure ==> Midway(text, pattern, newOut, newOffset, mp.Remaining()) && InOrder(mp.Held(), newOffset)
    ensures !ok && sure ==> forall j :: !OccursAt(text, pattern, j)
  {
    hide MpStream.Ring, Slice, MpStream.Remaining, OccursAt, Midway, Quiet;
    newOffset, newOut := boffset, out;
    ghost var held := mp.Held();
    var b;
    ok, b := ReadOne(mp);
    if !ok {
      if sure { NowhereLeft(text, pattern, out, boffset); }
      return;
    }
    if b == pattern[boffset] {
      if sure {
        MatchMore(text, pattern, out, boffset, b, mp.Remaining());
        QuietNext(held, b, mp.Held());
      }
      newOffset := boffset + 1;
    } else {
      if sure {
        MatchFails(text, pattern, out, boffset, b, mp.Remaining());
        QuietNext(held, b, mp.Held());
        if boffset > 0 { QuietAgain(pattern, boffset, b); }
      }
      if boffset > 0 {
        newOut := out + [pattern[0]];
        PutBackMatch(mp, pattern, boffset, b);
        newOffset := 0;
      } else {
        newOut := out + [b];
      }
    }
  }

  lemma BehindIs(d: seq<Byte>, left: seq<Byte>)
    requires |d| == 2
    ensures Behind(d + left) == if d[0] == DASH then d + left else left
  {
  }

  lemma OnlyInput(mp: MpStream)
    requires mp.Valid()
    ensures mp.pos <= |mp.data| && (mp.Held() == [] ==> mp.Remaining() == mp.data[mp.pos..])
  {
  }

  // What follows the boundary.
  method TakeNewline(mp: MpStream) returns (ok: bool)
    requires mp.Valid() && |mp.Held()| <= 2
    modifies mp, mp.putback
    ensures mp.Valid() && mp.putback == old(mp.putback) && (ok <==> |old(mp.Remaining())| >= 2)
    ensures ok && old(mp.Held()) == [] ==> mp.Remaining() == Behind(old(mp.Remaining()))
  {
    hide MpStream.Valid, MpStream.Held, MpStream.Remaining, Behind;
    HeldIsPart(mp);
    var got, d := mp.Read(2);
    ok := got == 2;
    if !ok {
      return;
    }
    BehindIs(d, mp.Remaining());
    OnlyInput(mp);
    if d[0] == CR && d[1] == LF {
    } else if d[0] == DASH {
      mp.PutBack(d);
    }
  }

  // afterNextBoundary: the bytes before the boundary come out, and the stream is left behind it.
  method AfterNextBoundary(mp: MpStream, boundary: seq<Byte>, first: bool) returns (result: ParseResult, out: seq<Byte>)
    requires mp.Valid() && |mp.Held()| <= 2 && OneLine(boundary)
    modifies mp, mp.putback
    ensures mp.Valid() && mp.putback == old(mp.putback)
    ensures !first ==> var text, pattern := old(mp.Remaining()), Pattern(boundary, first);
      && (result == Success <==> exists k :: FirstAt(text, pattern, k) && k + |pattern| + 2 <= |text|)
      && forall k :: FirstAt(text, pattern, k) && k + |pattern| + 2 <= |text| ==>
           out == text[..k] && mp.Remaining() == Behind(text[k + |pattern|..])
  {
    hide MpStream.Valid, MpStream.Held, MpStream.Remaining, OccursAt, FirstAt, Midway, Quiet, OneLine, Pattern, Behind;
    ghost var text, sure := mp.Remaining(), !first;
    var pattern := Pattern(boundary, first);
    PatternSize(boundary, first);
    StartsQuiet(mp, text, pattern);
    if sure { OneReturn(boundary); }
    var boffset: nat, ok: bool := 0, true;
    out := [];
    while boffset < |pattern|
      invariant mp.Valid() && mp.putback == old(mp.putback) && boffset <= |pattern| && Bounded(|mp.Held()|, boffset, |pattern|)
      invariant |mp.Remaining()| + boffset + |out| == |text|
      invariant sure ==> Midway(text, pattern, out, boffset, mp.Remaining()) && InOrder(mp.Held(), boffset)
      decreases |text| - |out|, |pattern| - boffset
    {
      ok, boffset, out := Step(mp, pattern, boffset, out, text, sure);
      if !ok {
        if sure { Nowhere(text, pattern); }
        return IoError, [];
      }
    }
    ghost var left := mp.Remaining();
    if sure { Found(text, pattern, out, left); }
    ok := TakeNewline(mp);
    if sure { Unique(text, pattern, |out|); }
    hide InOrder, Bounded;
    if !ok {
      return IoError, [];
    }
    return Success, out;
  }

  lemma PatternSize(boundary: seq<Byte>, first: bool)
    requires OneLine(boundary)
    ensures 2 <= |Pattern(boundary, first)| < PUTBACK
  {
  }

  // The carriage return is the first byte of the pattern and no other.
  lemma OneReturn(boundary: seq<Byte>)
    requires OneLine(boundary)
    ensures var pattern := Pattern(boundary, false); pattern[0] == CR && CR !in pattern[1..]
  {
    var pattern := Pattern(boundary, false);
    assert pattern[1..] == [LF, DASH, DASH] + boundary;
  }

  lemma Nowhere(text: seq<Byte>, pattern: seq<Byte>)
    requires forall j :: !OccursAt(text, pattern, j)
    ensures forall k :: !FirstAt(text, pattern, k)
  {
  }

  lemma Unique(text: seq<Byte>, pattern: seq<Byte>, k: nat)
    requires FirstAt(text, pattern, k)
    ensures forall j :: FirstAt(text, pattern, j) ==> j == k
  {
    forall j | FirstAt(text, pattern, j)
      ensures j == k
    {
      OnlyOne(text, pattern, j, k);
    }
  }
}
