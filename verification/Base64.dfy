/** Base64 (b64.rs; section 4 of RFC 4648): the encoder, the tolerant decoder,
    and their round trip. Symbols are sextets, shifts and masks are arithmetic. */
module Base64 {
  import opened Options

  type Byte = n: nat | n < 256
  type Sextet = n: nat | n < 64

  /** The alphabet: `A`-`Z`, `a`-`z`, `0`-`9`, `+`, `/`. */
  function Symbol(x: Sextet): char {
    if x < 26 then ('A' as int + x as int) as char
    else if x < 52 then ('a' as int + (x - 26) as int) as char
    else if x < 62 then ('0' as int + (x - 52) as int) as char
    else if x == 62 then '+'
    else '/'
  }

  function Val(c: char): Option<Sextet> {
    if 'A' <= c <= 'Z' then Some(c as int - 'A' as int)
    else if 'a' <= c <= 'z' then Some(c as int - 'a' as int + 26)
    else if '0' <= c <= '9' then Some(c as int - '0' as int + 52)
    else if c == '+' || c == '-' then Some(62)
    else if c == '/' || c == '_' then Some(63)
    else None
  }

  predicate IsWhitespace(c: char) {
    c == ' ' || c == '\t' || c == '\n' || c == 12 as char || c == '\r'
  }

  // ---- what the format says --------------------------------------------------------

  function First(a: Byte): Sextet { a as int / 4 }
  function Second(a: Byte, b: Byte): Sextet { a as int % 4 * 16 + b as int / 16 }
  function Third(b: Byte, c: Byte): Sextet { b as int % 16 * 4 + c as int / 64 }
  function Fourth(c: Byte): Sextet { c as int % 64 }

  /** The sextets of the data: three bytes make four, a short end is filled with zero bits. */
  function Sextets(data: seq<Byte>): seq<Sextet> {
    if |data| == 0 then []
    else if |data| == 1 then [First(data[0]), Second(data[0], 0)]
    else if |data| == 2 then [First(data[0]), Second(data[0], data[1]), Third(data[1], 0)]
    else [First(data[0]), Second(data[0], data[1]), Third(data[1], data[2]), Fourth(data[2])] + Sextets(data[3..])
  }

  function High(w: Sextet, x: Sextet): Byte { w as int * 4 + x as int / 16 }
  function Middle(x: Sextet, y: Sextet): Byte { x as int % 16 * 16 + y as int / 4 }
  function Low(y: Sextet, z: Sextet): Byte { y as int % 4 * 64 + z as int }

  /** The whole bytes in a run of sextets. */
  function Bytes(v: seq<Sextet>): seq<Byte> {
    if |v| < 2 then []
    else if |v| == 2 then [High(v[0], v[1])]
    else if |v| == 3 then [High(v[0], v[1]), Middle(v[1], v[2])]
    else [High(v[0], v[1]), Middle(v[1], v[2]), Low(v[2], v[3])] + Bytes(v[4..])
  }

  function Letters(v: seq<Sextet>): (s: string)
    ensures |s| == |v| && forall i :: 0 <= i < |v| ==> s[i] == Symbol(v[i])
  {
    seq(|v|, i requires 0 <= i < |v| => Symbol(v[i]))
  }

  function Encoded(data: seq<Byte>): string {
    Letters(Sextets(data)) + (if |data| % 3 == 1 then "==" else if |data| % 3 == 2 then "=" else "")
  }

  /** The symbols before the padding, white space skipped; `None` when another character stands there. */
  function Symbols(text: string): Option<seq<Sextet>> {
    if text == "" || text[0] == '=' then Some([])
    else if IsWhitespace(text[0]) then Symbols(text[1..])
    else match (Val(text[0]), Symbols(text[1..]))
         case (Some(x), Some(v)) => Some([x] + v)
         case _ => None
  }

  /** A lone trailing symbol carries no byte. */
  function Decoded(text: string): Option<seq<Byte>> {
    match Symbols(text)
    case None => None
    case Some(v) => if |v| % 4 == 1 then None else Some(Bytes(v))
  }

  // ---- the code --------------------------------------------------------------------

  method Encode(data: seq<Byte>) returns (out: string)
    ensures out == Encoded(data)
  {
    hide Encoded, Symbol, Word, First, Second, Third, Fourth;
    EncodedNothing();
    out := "";
    assert data[0..] == data;
    var i := 0;
    while i < |data|
      invariant 0 <= i <= |data|
      invariant Encoded(data) == out + Encoded(data[i..])
    {
      var chunk := data[i..if i + 3 <= |data| then i + 3 else |data|];
      var b0, b1, b2 := chunk[0], if |chunk| > 1 then chunk[1] else 0, if |chunk| > 2 then chunk[2] else 0;
      var n := Word(b0, b1, b2);
      ghost var before := out;
      out := out + [Symbol(n / 262144 % 64)];
      out := out + [Symbol(n / 4096 % 64)];
      out := out + [if |chunk| > 1 then Symbol(n / 64 % 64) else '='];
      out := out + [if |chunk| > 2 then Symbol(n % 64) else '='];
      ChunkSextets(b0, b1, b2);
      ghost var four := [Symbol(First(b0)), Symbol(Second(b0, b1)),
                         if |chunk| > 1 then Symbol(Third(b1, b2)) else '=', if |chunk| > 2 then Symbol(Fourth(b2))
                             else '='];
      assert out == before + four;
      EncodeStep(data, i, before, four);
      i := i + |chunk|;
    }
    assert data[i..] == [] && out + "" == out;
  }

  method Decode(text: string) returns (r: Option<seq<Byte>>)
    ensures r == Decoded(text)
  {
    hide Bytes, NewByte;
    var out: seq<Byte> := [];
    var acc, bits := 0, 0;
    ghost var v: seq<Sextet> := [];
    var i := 0;
    assert text[0..] == text;
    NoBytes();
    PrependNothing(Symbols(text));
    while i < |text|
      invariant 0 <= i <= |text|
      invariant Symbols(text) == Prepend(v, Symbols(text[i..]))
      invariant out == Bytes(v) && (acc, bits) == Pending(v)
    {
      var c := text[i];
      assert text[i..][1..] == text[i + 1..];
      i := i + 1;
      if IsWhitespace(c) { continue; }
      if c == '=' {
        assert v + [] == v;
        assert Symbols(text) == Some(v);
        PendingLeftover(v);
        return Finish(v, bits, out);
      }
      var x := Val(c);
      if x == None { return None; }
      BytesSnoc(v, x.value);
      PendingLeftover(v);
      LeftoverSnoc(v, x.value);
      assert (v + [x.value])[..|v|] == v;
      SymbolsStep(v, x.value, Symbols(text[i..]));
      acc := acc * 64 + x.value as int;
      bits := bits + 6;
      if bits >= 8 {
        bits := bits - 8;
        out := out + [acc / Pow2(bits) % 256];
        acc := acc % Pow2(bits);
      }
      v := v + [x.value];
    }
    assert text[i..] == "" && v + [] == v;
    PendingLeftover(v);
    r := Finish(v, bits, out);
  }

  function Finish(ghost v: seq<Sextet>, bits: nat, out: seq<Byte>): (r: Option<seq<Byte>>)
    requires bits == Leftover(v).1
    ensures r == if |v| % 4 == 1 then None else Some(out)
  {
    if bits >= 6 then None else Some(out)
  }

  function Pow2(bits: nat): (p: nat)
    ensures p > 0
  {
    if bits == 0 then 1 else 2 * Pow2(bits - 1)
  }

  /** One symbol more in the accumulator: 6 bits in, and 8 out when there are so many. */
  function TakeIn(pending: (nat, nat), x: Sextet): (nat, nat) {
    var acc, bits := pending.0 * 64 + x as int, pending.1 + 6;
    if bits >= 8 then (acc % Pow2(bits - 8), bits - 8) else (acc, bits)
  }

  /** The accumulator and the number of its bits after these symbols. */
  function Pending(v: seq<Sextet>): (nat, nat) {
    if v == [] then (0, 0) else TakeIn(Pending(v[..|v| - 1]), v[|v| - 1])
  }

  /** The bits of the last symbol that no whole byte has taken, and how many they are. */
  function Leftover(v: seq<Sextet>): (nat, nat) {
    if |v| % 4 == 0 then (0, 0)
    else if |v| % 4 == 1 then (v[|v| - 1], 6)
    else if |v| % 4 == 2 then (v[|v| - 1] % 16, 4)
    else (v[|v| - 1] % 4, 2)
  }

  function Prepend(v: seq<Sextet>, rest: Option<seq<Sextet>>): Option<seq<Sextet>> {
    match rest case None => None case Some(w) => Some(v + w)
  }

  lemma NoBytes()
    ensures Bytes([]) == []
  {
  }

  lemma PrependNothing(rest: Option<seq<Sextet>>)
    ensures Prepend([], rest) == rest
  {
    if rest.Some? { assert [] + rest.value == rest.value; }
  }

  lemma SymbolsStep(v: seq<Sextet>, x: Sextet, rest: Option<seq<Sextet>>)
    ensures Prepend(v, Prepend([x], rest)) == Prepend(v + [x], rest)
  {
    if rest.Some? { assert v + ([x] + rest.value) == v + [x] + rest.value; }
  }

  /** The byte, if any, that a further sextet completes. */
  function NewByte(v: seq<Sextet>, x: Sextet): seq<Byte> {
    if |v| % 4 == 0 then []
    else
      var last := v[|v| - 1];
      [if |v| % 4 == 1 then High(last, x) else if |v| % 4 == 2 then Middle(last, x) else Low(last, x)]
  }

  lemma {:induction false} BytesSnoc(v: seq<Sextet>, x: Sextet)
    ensures Bytes(v + [x]) == Bytes(v) + NewByte(v, x)
  {
    hide High, Middle, Low, Bytes, NewByte;
    if |v| < 4 {
      FewBytes(v, x);
    } else {
      BytesSnoc(v[4..], x);
      assert (v + [x])[4..] == v[4..] + [x] && (v + [x])[..4] == v[..4];
      NewByteTail(v, x);
      BytesTail(v);
      BytesTail(v + [x]);
    }
  }

  lemma FewBytes(v: seq<Sextet>, x: Sextet)
    requires |v| < 4
    ensures Bytes(v + [x]) == Bytes(v) + NewByte(v, x)
  {
    hide High, Middle, Low, Bytes, NewByte;
    if |v| == 0 {
      NoByte(x);
      assert v == [] && v + [x] == [x];
    } else if |v| == 1 {
      OneByte(v[0], x);
      assert v == [v[0]] && v + [x] == [v[0], x];
    } else if |v| == 2 {
      TwoBytes(v[0], v[1], x);
      assert v == [v[0], v[1]] && v + [x] == [v[0], v[1], x];
    } else {
      ThreeBytes(v[0], v[1], v[2], x);
      assert v == [v[0], v[1], v[2]] && v + [x] == [v[0], v[1], v[2], x];
    }
  }

  lemma NoByte(x: Sextet)
    ensures Bytes([x]) == Bytes([]) + NewByte([], x)
  {
  }

  lemma OneByte(a: Sextet, x: Sextet)
    ensures Bytes([a, x]) == Bytes([a]) + NewByte([a], x)
  {
    hide High;
  }

  lemma TwoBytes(a: Sextet, b: Sextet, x: Sextet)
    ensures Bytes([a, b, x]) == Bytes([a, b]) + NewByte([a, b], x)
  {
    hide High, Middle;
  }

  lemma ThreeBytes(a: Sextet, b: Sextet, c: Sextet, x: Sextet)
    ensures Bytes([a, b, c, x]) == Bytes([a, b, c]) + NewByte([a, b, c], x)
  {
    hide High, Middle, Low;
    assert [a, b, c, x][4..] == [];
  }

  lemma NewByteTail(v: seq<Sextet>, x: Sextet)
    requires |v| >= 4
    ensures NewByte(v[4..], x) == NewByte(v, x)
  {
    hide High, Middle, Low;
  }

  lemma BytesTail(v: seq<Sextet>)
    requires |v| >= 4
    ensures Bytes(v) == Bytes(v[..4]) + Bytes(v[4..])
  {
    hide High, Middle, Low;
    assert v[..4][4..] == [];
  }

  /** The accumulator holds what the next byte needs, and keeps what it leaves. */
  lemma LeftoverSnoc(v: seq<Sextet>, x: Sextet)
    ensures var (acc, bits) := Leftover(v);
            var more := acc * 64 + x as int;
            if bits == 0 then Leftover(v + [x]) == (x, 6) && NewByte(v, x) == []
            else
              && Leftover(v + [x]) == (more % Pow2(bits - 2), bits - 2)
              && NewByte(v, x) == [more / Pow2(bits - 2) % 256]
  {
    hide High, Middle, Low, Pow2;
    PowValues();
    var n := |v| % 4;
    assert |v + [x]| % 4 == if n == 3 then 0 else n + 1;
    if n == 1 { HighByte(v[|v| - 1], x); }
    if n == 2 { MiddleByte(v[|v| - 1], x); }
    if n == 3 { LowByte(v[|v| - 1], x); }
  }

  lemma {:induction false} PendingLeftover(v: seq<Sextet>)
    ensures Pending(v) == Leftover(v)
  {
    if v != [] {
      var front, x := v[..|v| - 1], v[|v| - 1];
      PendingLeftover(front);
      LeftoverSnoc(front, x);
      assert v == front + [x];
    }
  }

  /** Whatever symbols came, fewer than `bits` bits are pending, `bits` is 0, 2, 4 or 6, and one
      symbol more makes no more than 12 bits: nothing overflows. */
  lemma NothingOverflows(v: seq<Sextet>, x: Sextet)
    ensures var (acc, bits) := Pending(v);
            bits in {0, 2, 4, 6} && acc < Pow2(bits) && acc * 64 + x as int < Pow2(bits + 6) <= 4096
  {
    PendingLeftover(v);
    PowValues();
    assert Pow2(12) == 4096 && Pow2(10) == 1024 && Pow2(8) == 256;
  }

  lemma PowValues()
    ensures Pow2(6) == 64 && Pow2(4) == 16 && Pow2(2) == 4 && Pow2(0) == 1
  {
  }

  lemma HighByte(w: Sextet, x: Sextet)
    ensures High(w, x) as int == (w as int * 64 + x as int) / 16 % 256
            && x as int % 16 == (w as int * 64 + x as int) % 16
  {
  }

  lemma MiddleByte(x: Sextet, y: Sextet)
    ensures Middle(x, y) as int == (x as int % 16 * 64 + y as int) / 4 % 256
            && y as int % 4 == (x as int % 16 * 64 + y as int) % 4
  {
  }

  lemma LowByte(y: Sextet, z: Sextet)
    ensures Low(y, z) as int == (y as int % 4 * 64 + z as int) % 256
  {
  }

  /** One chunk further into the data. */
  lemma EncodeStep(data: seq<Byte>, i: nat, before: string, four: string)
    requires i < |data| && Encoded(data) == before + Encoded(data[i..])
    requires var n := |data| - i;
             var b0, b1, b2 := data[i], if n > 1 then data[i + 1] else 0, if n > 2 then data[i + 2] else 0;
             four == [Symbol(First(b0)), Symbol(Second(b0, b1)),
                      if n > 1 then Symbol(Third(b1, b2)) else '=', if n > 2 then Symbol(Fourth(b2)) else '=']
    ensures Encoded(data) == before + four + Encoded(data[if i + 3 <= |data| then i + 3 else |data|..])
  {
    hide Encoded, Symbol, First, Second, Third, Fourth;
    EncodedChunk(data[i..], four);
    if |data| - i <= 3 {
      EncodedNothing();
      assert data[if i + 3 <= |data| then i + 3 else |data|..] == [] && before + four + "" == before + four;
    } else {
      assert data[i..][3..] == data[i + 3..];
      assert before + (four + Encoded(data[i + 3..])) == before + four + Encoded(data[i + 3..]);
    }
  }

  lemma EncodedNothing()
    ensures Encoded([]) == ""
  {
  }

  /** Three bytes as one 24-bit number. */
  function Word(b0: Byte, b1: Byte, b2: Byte): nat {
    b0 as int * 65536 + b1 as int * 256 + b2 as int
  }

  lemma ChunkSextets(b0: Byte, b1: Byte, b2: Byte)
    ensures var n := Word(b0, b1, b2);
            && n / 262144 % 64 == First(b0) && n / 4096 % 64 == Second(b0, b1)
            && n / 64 % 64 == Third(b1, b2) && n % 64 == Fourth(b2)
  {
    TopSix(b0, b1, b2);
    UpperSix(b0, b1, b2);
    LowerSix(b0, b1, b2);
  }

  lemma TopSix(b0: Byte, b1: Byte, b2: Byte)
    ensures Word(b0, b1, b2) / 262144 % 64 == First(b0)
  {
    assert Word(b0, b1, b2) == 262144 * (b0 as int / 4) + (b0 as int % 4 * 65536 + b1 as int * 256 + b2 as int);
  }

  lemma UpperSix(b0: Byte, b1: Byte, b2: Byte)
    ensures Word(b0, b1, b2) / 4096 % 64 == Second(b0, b1)
  {
    var q := 64 * (b0 as int / 4) + Second(b0, b1) as int;
    assert Word(b0, b1, b2) == 4096 * q + (b1 as int % 16 * 256 + b2 as int);
    assert Word(b0, b1, b2) / 4096 == q;
  }

  lemma LowerSix(b0: Byte, b1: Byte, b2: Byte)
    ensures Word(b0, b1, b2) / 64 % 64 == Third(b1, b2) && Word(b0, b1, b2) % 64 == Fourth(b2)
  {
    var p := b0 as int * 16 + b1 as int / 16;
    var q := 64 * p + Third(b1, b2) as int;
    assert Word(b0, b1, b2) == 64 * q + Fourth(b2) as int;
    SplitBySix(Word(b0, b1, b2), q, Fourth(b2) as int);
    SplitBySix(q, p, Third(b1, b2) as int);
  }

  lemma SplitBySix(a: int, q: int, r: int)
    requires a == 64 * q + r && 0 <= r < 64
    ensures a / 64 == q && a % 64 == r
  {
  }

  /** Four letters for the first three bytes; or the padded letters of a shorter end. */
  lemma EncodedChunk(data: seq<Byte>, four: string)
    requires data != []
    requires var b0, b1, b2 := data[0], if |data| > 1 then data[1] else 0, if |data| > 2 then data[2] else 0;
             four == [Symbol(First(b0)), Symbol(Second(b0, b1)),
                      if |data| > 1 then Symbol(Third(b1, b2)) else '=', if |data| > 2 then Symbol(Fourth(b2)) else '=']
    ensures Encoded(data) == if |data| <= 3 then four else four + Encoded(data[3..])
  {
    hide Symbol, First, Second, Third, Fourth;
    if |data| >= 3 {
      EncodedFour(data);
      if |data| == 3 { EncodedNothing(); assert data[3..] == []; }
    }
  }

  lemma EncodedFour(data: seq<Byte>)
    requires |data| >= 3
    ensures var four := [Symbol(First(data[0])), Symbol(Second(data[0], data[1])), Symbol(Third(data[1], data[2])),
            Symbol(Fourth(data[2]))];
            Encoded(data) == four + Encoded(data[3..])
  {
    hide Symbol, First, Second, Third, Fourth;
    var rest := Sextets(data[3..]);
    var head := [First(data[0]), Second(data[0], data[1]), Third(data[1], data[2]), Fourth(data[2])];
    LettersConcat(head, rest);
  }

  lemma LettersConcat(v: seq<Sextet>, w: seq<Sextet>)
    ensures Letters(v + w) == Letters(v) + Letters(w)
  {
    hide Symbol;
  }

  // ---- the round trip ------------------------------------------------------------------

  lemma AlphabetVal(x: Sextet)
    ensures Val(Symbol(x)) == Some(x) && Symbol(x) != '=' && !IsWhitespace(Symbol(x))
  {
  }

  lemma {:induction false} SymbolsOfLetters(v: seq<Sextet>, tail: string)
    requires tail == "" || tail[0] == '='
    ensures Symbols(Letters(v) + tail) == Some(v)
  {
    if v == [] {
      assert "" + tail == tail;
    } else {
      AlphabetVal(v[0]);
      assert Letters(v)[1..] == Letters(v[1..]) && v == [v[0]] + v[1..];
      assert (Letters(v) + tail)[1..] == Letters(v[1..]) + tail;
      SymbolsOfLetters(v[1..], tail);
    }
  }

  lemma {:induction false} BytesOfSextets(data: seq<Byte>)
    ensures Bytes(Sextets(data)) == data
  {
    hide First, Second, Third, Fourth, High, Middle, Low;
    if |data| == 1 {
      BytesBack(data[0], 0, 0);
    } else if |data| == 2 {
      BytesBack(data[0], data[1], 0);
    } else if |data| >= 3 {
      BytesBack(data[0], data[1], data[2]);
      BytesOfSextets(data[3..]);
      assert Sextets(data)[4..] == Sextets(data[3..]);
      assert data == [data[0], data[1], data[2]] + data[3..];
    }
  }

  lemma BytesBack(a: Byte, b: Byte, c: Byte)
    ensures High(First(a), Second(a, b)) == a && Middle(Second(a, b), Third(b, c)) == b
            && Low(Third(b, c), Fourth(c)) == c
  {
    HighBack(a, b);
    MiddleBack(a, b, c);
    LowBack(b, c);
  }

  lemma HighBack(a: Byte, b: Byte)
    ensures High(First(a), Second(a, b)) == a
  {
  }

  lemma MiddleBack(a: Byte, b: Byte, c: Byte)
    ensures Middle(Second(a, b), Third(b, c)) == b
  {
    SecondLow(a as int % 4, b as int / 16);
    ThirdHigh(b as int % 16, c as int / 64);
  }

  lemma SecondLow(q: int, r: int)
    requires 0 <= r < 16
    ensures (q * 16 + r) % 16 == r
  {
  }

  lemma ThirdHigh(q: int, r: int)
    requires 0 <= r < 4
    ensures (q * 4 + r) / 4 == q
  {
  }

  lemma LowBack(b: Byte, c: Byte)
    ensures Low(Third(b, c), Fourth(c)) == c
  {
    ThirdLow(b as int % 16, c as int / 64);
  }

  lemma ThirdLow(q: int, r: int)
    requires 0 <= r < 4
    ensures (q * 4 + r) % 4 == r
  {
  }

  /** What the decoder looks at: the characters before the padding, without white
      space, in one alphabet. */
  function Canonical(text: string): string {
    if text == "" || text[0] == '=' then ""
    else if IsWhitespace(text[0]) then Canonical(text[1..])
    else [if text[0] == '-' then '+' else if text[0] == '_' then '/' else text[0]] + Canonical(text[1..])
  }

  lemma {:induction false} SymbolsOfCanonical(text: string)
    ensures Symbols(Canonical(text)) == Symbols(text)
  {
    if text != "" && text[0] != '=' {
      SymbolsOfCanonical(text[1..]);
      if !IsWhitespace(text[0]) { assert Canonical(text)[1..] == Canonical(text[1..]); }
    }
  }

  const UPPER := "ABCDEFGHIJKLMNOPQRSTUVWXYZ"
  const LOWER := "abcdefghijklmnopqrstuvwxyz"
  const DIGITS := "0123456789"

  /** The alphabet, in order. */
  lemma AlphabetSymbols(x: Sextet)
    ensures |UPPER + LOWER + DIGITS + "+/"| == 64 && Symbol(x) == (UPPER + LOWER + DIGITS + "+/")[x]
  {
    if x < 26 { UpperAt(x); } else if x < 52 { LowerAt(x - 26); } else if x < 62 { DigitAt(x - 52); }
  }

  lemma UpperAt(i: nat)
    requires i < 26
    ensures UPPER[i] as int == 'A' as int + i
  {
  }

  lemma LowerAt(i: nat)
    requires i < 26
    ensures LOWER[i] as int == 'a' as int + i
  {
  }

  lemma DigitAt(i: nat)
    requires i < 10
    ensures DIGITS[i] as int == '0' as int + i
  {
  }

  /** What the decoder takes for a symbol, and what for white space: nothing else. */
  lemma DecoderAlphabet(c: char)
    ensures Val(c).Some? <==> c in UPPER || c in LOWER || c in DIGITS || c in "+/-_"
    ensures IsWhitespace(c) <==> c == ' ' || c == '\t' || c == '\n' || c == '\r' || c as int == 12
  {
    if 'A' <= c <= 'Z' { UpperAt(c as int - 'A' as int); }
    if 'a' <= c <= 'z' { LowerAt(c as int - 'a' as int); }
    if '0' <= c <= '9' { DigitAt(c as int - '0' as int); }
    if c in UPPER {
      var i :| 0 <= i < 26 && UPPER[i] == c;
      UpperAt(i);
    }
    if c in LOWER {
      var i :| 0 <= i < 26 && LOWER[i] == c;
      LowerAt(i);
    }
    if c in DIGITS {
      var i :| 0 <= i < 10 && DIGITS[i] == c;
      DigitAt(i);
    }
  }

  /** A text is refused exactly when another character stands before the padding, or one symbol
      more than whole groups. */
  lemma {:induction false} DecodeRefuses(text: string)
    ensures Symbols(text) == None <==>
              exists i :: 0 <= i < |text| && Val(text[i]).None? && !IsWhitespace(text[i]) && text[i] != '='
                          && '=' !in text[..i]
    ensures Symbols(text).Some? ==> (Decoded(text) == None <==> |Symbols(text).value| % 4 == 1)
  {
    hide Val, IsWhitespace, Bytes;
    if text != "" && text[0] != '=' {
      DecodeRefuses(text[1..]);
      var rest := text[1..];
      if exists i :: 0 <= i < |rest| && Val(rest[i]).None? && !IsWhitespace(rest[i]) && rest[i] != '='
          && '=' !in rest[..i] {
        var i :| 0 <= i < |rest| && Val(rest[i]).None? && !IsWhitespace(rest[i]) && rest[i] != '=' && '=' !in rest[..i];
        assert text[i + 1] == rest[i] && text[..i + 1] == [text[0]] + rest[..i];
      }
      if exists i :: 0 < i < |text| && Val(text[i]).None? && !IsWhitespace(text[i]) && text[i] != '='
          && '=' !in text[..i] {
        var i :| 0 < i < |text| && Val(text[i]).None? && !IsWhitespace(text[i]) && text[i] != '=' && '=' !in text[..i];
        assert rest[i - 1] == text[i] && text[..i] == [text[0]] + rest[..i - 1];
      }
    }
  }

  /** The bits in order: three bytes and their four sextets are one number, a short end is filled
      with zero bits on the right. */
  lemma GroupNumber(a: Byte, b: Byte, c: Byte)
    ensures Sextets([a, b, c]) == [First(a), Second(a, b), Third(b, c), Fourth(c)]
    ensures ((First(a) as int * 64 + Second(a, b) as int) * 64 + Third(b, c) as int) * 64 + Fourth(c) as int
            == (a as int * 256 + b as int) * 256 + c as int
    ensures Sextets([a]) == [First(a), Second(a, 0)] && First(a) as int * 64 + Second(a, 0) as int == a as int * 16
    ensures Sextets([a, b]) == [First(a), Second(a, b), Third(b, 0)]
            && (First(a) as int * 64 + Second(a, b) as int) * 64 + Third(b, 0) as int == (a as int * 256 + b as int) * 4
  {
    assert [a, b, c][3..] == [];
    assert b as int == 16 * (b as int / 16) + b as int % 16;
    assert c as int == 64 * (c as int / 64) + c as int % 64;
  }

  /** Every spelling of an encoding decodes to the data: white space anywhere, padding
      there or not and whatever follows it, either alphabet. */
  lemma RoundTrip(data: seq<Byte>, text: string)
    requires Canonical(text) == Canonical(Encoded(data))
    ensures Decoded(text) == Some(data)
  {
    hide Letters, Sextets, Symbols, Bytes, Canonical;
    var tail := if |data| % 3 == 1 then "==" else if |data| % 3 == 2 then "=" else "";
    SymbolsOfLetters(Sextets(data), tail);
    SymbolsOfCanonical(text);
    SymbolsOfCanonical(Encoded(data));
    BytesOfSextets(data);
    SextetsLength(data);
  }

  /** Four characters for every three bytes begun. */
  lemma {:induction false} EncodedLength(data: seq<Byte>)
    ensures |Encoded(data)| == (|data| + 2) / 3 * 4
  {
    hide Letters, Sextets;
    SextetsLength(data);
    Groups(|data|);
  }

  lemma Groups(n: nat)
    ensures n / 3 * 4 + (if n % 3 == 0 then 0 else n % 3 + 1) + (if n % 3 == 1 then 2 else if n % 3 == 2 then 1 else 0)
            == (n + 2) / 3 * 4
  {
  }

  lemma {:induction false} SextetsLength(data: seq<Byte>)
    ensures |Sextets(data)| == |data| / 3 * 4 + (if |data| % 3 == 0 then 0 else |data| % 3 + 1)
  {
    hide First, Second, Third, Fourth;
    if |data| >= 3 { SextetsLength(data[3..]); }
  }
}
