/** The HTTP client's Base64 accumulator against RFC 4648 section 4, and the buffers of its Basic authentication. */
module Base64 {
  import opened Bits

  type digit = d: int | 0 <= d < 64

  // The source's table, in pieces.
  function Code(): string {
    "ABCDEFGH" + "IJKLMNOP" + "QRSTUVWX" + "YZabcdef" + "ghijklmn" + "opqrstuv" + "wxyz0123" + "456789+/" + "="
  }

  // Table 1 of RFC 4648.
  function Symbol(d: digit): char {
    if d < 26 then ('A' as int + d) as char
    else if d < 52 then ('a' as int + (d - 26)) as char
    else if d < 62 then ('0' as int + (d - 52)) as char
    else if d == 62 then '+' else '/'
  }

  lemma CodeIsTable(d: digit)
    ensures |Code()| == 65 && Code()[d] == Symbol(d)
  {
  }

  // The value of a symbol, -1 for a character outside the alphabet.
  function Value(c: char): (d: int)
    ensures -1 <= d < 64
    ensures d >= 0 ==> Symbol(d) == c
  {
    if 'A' <= c <= 'Z' then c as int - 'A' as int
    else if 'a' <= c <= 'z' then c as int - 'a' as int + 26
    else if '0' <= c <= '9' then c as int - '0' as int + 52
    else if c == '+' then 62
    else if c == '/' then 63
    else -1
  }

  lemma SymbolValue(d: digit)
    ensures Value(Symbol(d)) == d && Symbol(d) != '='
  {
  }

  // ----- RFC 4648 section 4: 24-bit groups of three bytes as four symbols -----

  // The four 6-bit digits of a group.
  function Digits(a: byte, b: byte, c: byte): (r: seq<int>)
    ensures |r| == 4 && forall i :: 0 <= i < 4 ==> 0 <= r[i] < 64
  {
    [a / 4, a % 4 * 16 + b / 16, b % 16 * 4 + c / 64, c % 64]
  }

  function Symbols(a: byte, b: byte, c: byte): (r: string)
    ensures |r| == 4
  {
    var d := Digits(a, b, c);
    [Symbol(d[0]), Symbol(d[1]), Symbol(d[2]), Symbol(d[3])]
  }

  /** The standard's encoding: a short last group is filled with zero bits and its missing symbols are '='. */
  function Encode(s: seq<byte>): (r: string)
    ensures |r| == 4 * ((|s| + 2) / 3)
  {
    hide Symbols;
    if |s| == 0 then ""
    else if |s| == 1 then Symbols(s[0], 0, 0)[..2] + "=="
    else if |s| == 2 then Symbols(s[0], s[1], 0)[..3] + "="
    else Symbols(s[0], s[1], s[2]) + Encode(s[3..])
  }

  /** Test vectors of section 10 of RFC 4648: f, fo, foo and foob. */
  lemma Vectors()
    ensures Encode([102]) == "Zg==" && Encode([102, 111]) == "Zm8=" && Encode([102, 111, 111]) == "Zm9v"
    ensures Encode([102, 111, 111, 98]) == "Zm9vYg=="
  {
    VectorSymbols();
    hide Symbols;
    assert [102, 111, 111][3..] == [] && [102, 111, 111, 98][3..] == [98];
    assert Encode([98]) == "Yg==";
  }

  lemma VectorSymbols()
    ensures Symbols(102, 0, 0) == "ZgAA" && Symbols(102, 111, 0) == "Zm8A" && Symbols(102, 111, 111) == "Zm9v"
    ensures Symbols(98, 0, 0) == "YgAA"
  {
    Letters();
    hide Symbol;
    FourDigits(102, 0, 0, 25, 32, 0, 0);
    FourDigits(102, 111, 0, 25, 38, 60, 0);
    FourDigits(102, 111, 111, 25, 38, 61, 47);
    FourDigits(98, 0, 0, 24, 32, 0, 0);
    hide Symbols;
  }

  /** The group as one 24-bit number, cut into four digits of six bits. */
  lemma FourDigits(a: byte, b: byte, c: byte, w: digit, x: digit, y: digit, z: digit)
    requires 65536 * a + 256 * b + c == 262144 * w + 4096 * x + 64 * y + z
    ensures Symbols(a, b, c) == [Symbol(w), Symbol(x), Symbol(y), Symbol(z)]
  {
    hide Symbol;
    var ra := a - 4 * w;
    ModUnique(a, 4, w, ra);
    var xb := x - 16 * ra;
    var rb := b - 16 * xb;
    ModUnique(b, 16, xb, rb);
    ModUnique(c, 64, y - 4 * rb, z);
  }

  lemma Letters()
    ensures Symbol(0) == 'A' && Symbol(24) == 'Y' && Symbol(25) == 'Z' && Symbol(32) == 'g' && Symbol(38) == 'm'
    ensures Symbol(47) == 'v' && Symbol(60) == '8' && Symbol(61) == '9'
  {
  }

  datatype Option<T> = None | Some(value: T)

  // The three bytes of four digits.
  function Bytes(w: digit, x: digit, y: digit, z: digit): (r: seq<byte>)
    ensures |r| == 3
  {
    [w * 4 + x / 16, x % 16 * 16 + y / 4, y % 4 * 64 + z]
  }

  // A reader of the standard's encoding, four symbols at a time; it refuses a last group whose filling is not zero.
  function Decode(r: string): Option<seq<byte>> {
    if |r| == 0 then Some([])
    else if |r| < 4 then None
    else
      var w, x, y, z := Value(r[0]), Value(r[1]), Value(r[2]), Value(r[3]);
      if w < 0 || x < 0 then None
      else if r[2..] == "==" then if x % 16 == 0 then Some(Bytes(w, x, 0, 0)[..1]) else None
      else if y < 0 then None
      else if r[3..] == "=" then if y % 4 == 0 then Some(Bytes(w, x, y, 0)[..2]) else None
      else if z < 0 then None
      else
        var rest := Decode(r[4..]);
        if rest.None? then None else Some(Bytes(w, x, y, z) + rest.value)
  }

  lemma GroupBack(a: byte, b: byte, c: byte)
    ensures var d := Digits(a, b, c);
            Bytes(d[0], d[1], d[2], d[3]) == [a, b, c] &&
            (b == 0 ==> d[1] % 16 == 0 && Bytes(d[0], d[1], 0, 0)[..1] == [a]) &&
            (c == 0 ==> d[2] % 4 == 0 && Bytes(d[0], d[1], d[2], 0)[..2] == [a, b])
  {
    ModUnique(a % 4 * 16 + b / 16, 16, a % 4, b / 16);
    ModUnique(b % 16 * 4 + c / 64, 4, b % 16, c / 64);
  }

  lemma SymbolsBack(a: byte, b: byte, c: byte)
    ensures var r, d := Symbols(a, b, c), Digits(a, b, c);
            forall i :: 0 <= i < 4 ==> Value(r[i]) == d[i] && r[i] != '='
  {
    hide Symbol, Value, Digits;
    var d := Digits(a, b, c);
    SymbolValue(d[0]);
    SymbolValue(d[1]);
    SymbolValue(d[2]);
    SymbolValue(d[3]);
  }

  /** Decoding undoes the standard's encoding, so no two strings share one. */
  lemma {:induction false} DecodeEncode(s: seq<byte>)
    ensures Decode(Encode(s)) == Some(s)
  {
    hide Symbols, Digits, Value, Bytes;
    if |s| > 0 {
      var a, b, c := s[0], if |s| > 1 then s[1] else 0, if |s| > 2 then s[2] else 0;
      SymbolsBack(a, b, c);
      GroupBack(a, b, c);
      var r, g := Encode(s), Symbols(a, b, c);
      if |s| > 2 {
        assert r[4..] == Encode(s[3..]) && r[..4] == g;
        assert r[3] == g[3] && r[3..] != "=" && r[2] == g[2] && r[2..] != "==";
        DecodeEncode(s[3..]);
        assert s == [a, b, c] + s[3..];
      } else if |s| == 2 {
        assert r[..3] == g[..3] && r[3..] == "=" && r[2] == g[2] && r[2..] != "==";
        assert s == [a, b];
      } else {
        assert r[..2] == g[..2] && r[2..] == "==";
        assert s == [a];
      }
    }
  }

  // ----- The accumulator -----

  // The symbols sent out for s before the last incomplete one.
  function Whole(s: seq<byte>): (r: string) {
    if |s| == 0 then ""
    else if |s| == 1 then Symbols(s[0], 0, 0)[..1]
    else if |s| == 2 then Symbols(s[0], s[1], 0)[..2]
    else Symbols(s[0], s[1], s[2]) + Whole(s[3..])
  }

  // The bits not sent out yet: their number and their value.
  function Spare(s: seq<byte>): (l: nat) {
    if |s| % 3 == 0 then 0 else if |s| % 3 == 1 then 2 else 4
  }

  function Residue(s: seq<byte>): (v: nat)
    ensures v < Scale(Spare(s))
  {
    if |s| % 3 == 0 then 0 else if |s| % 3 == 1 then s[|s| - 1] % 4 else s[|s| - 1] % 16
  }

  // 2^l for the shifts that occur.
  function Scale(l: nat): (k: nat)
    ensures k > 0
  {
    if l == 0 then 1 else if l == 2 then 4 else if l == 4 then 16 else if l == 6 then 64
    else if l == 8 then 256 else if l == 10 then 1024 else 4096
  }

  // What the inner loop sends when the low l bits of v are still to go, ...
  function Sent(v: nat, l: nat): string {
    if l == 8 then [Symbol(v / 4 % 64)]
    else if l == 10 then [Symbol(v / 16 % 64)]
    else if l == 12 then [Symbol(v / 64 % 64), Symbol(v % 64)]
    else if l == 6 then [Symbol(v % 64)]
    else ""
  }

  // ... and what it leaves.
  function Low(v: nat, l: nat): nat {
    if l == 8 then v % 4 else if l == 10 then v % 16 else 0
  }

  lemma GroupDone(s: seq<byte>)
    requires |s| >= 3
    ensures Spare(s) == Spare(s[3..]) && Residue(s) == Residue(s[3..])
  {
  }

  // A byte b after s completes some bits, which go out, and leaves the rest.
  ghost predicate Grows(s: seq<byte>, b: byte, t: seq<byte>) {
    var v, l := Residue(s) * 256 + b, Spare(s) + 8;
    v < Scale(l) && Whole(t) == Whole(s) + Sent(v, l) && Spare(t) == l % 6 && Residue(t) == Low(v, l)
  }

  // The first bytes of a group, one by one.
  lemma FirstByte(b: byte)
    ensures Grows([], b, [b])
  {
    hide Symbol;
  }

  lemma SecondByte(a: byte, b: byte)
    ensures Grows([a], b, [a, b])
  {
    hide Symbol;
    NextDigits(a % 4, b);
  }

  lemma ThirdByte(a: byte, b: byte, c: byte)
    ensures Grows([a, b], c, [a, b, c])
  {
    hide Symbol;
    NextDigits(b % 16, c);
    assert Whole([a, b, c]) == Symbols(a, b, c) + Whole([a, b, c][3..]);
    assert [a, b, c][3..] == [];
  }

  // The digits in a residue followed by a byte.
  lemma NextDigits(r: nat, b: byte)
    ensures var v := r * 256 + b;
            (r < 4 ==> v < 1024 && v % 16 == b % 16 && v / 16 % 64 == r * 16 + b / 16) &&
            (r < 16 ==> v < 4096 && v % 64 == b % 64 && v / 64 % 64 == r * 4 + b / 64)
  {
  }

  /** One more byte: the bits it completes go out, the rest stay. */
  lemma {:induction false} WholeGrows(s: seq<byte>, b: byte)
    ensures Grows(s, b, s + [b])
  {
    var t := s + [b];
    if |s| == 0 {
      assert t == [b];
      FirstByte(b);
    } else if |s| == 1 {
      hide Grows;
      assert s == [s[0]] && t == [s[0], b];
      SecondByte(s[0], b);
    } else if |s| == 2 {
      hide Grows;
      assert s == [s[0], s[1]] && t == [s[0], s[1], b];
      ThirdByte(s[0], s[1], b);
    } else {
      hide Symbols, Residue, Spare, Scale, Sent, Low;
      WholeGrows(s[3..], b);
      GroupDone(s);
      GroupDone(t);
      assert t[3..] == s[3..] + [b];
      assert Whole(t) == Symbols(s[0], s[1], s[2]) + Whole(t[3..]);
    }
  }

  // The filling after the last whole symbol.
  function Tail(s: seq<byte>): string {
    if |s| % 3 == 0 then ""
    else if |s| % 3 == 1 then [Symbol(Residue(s) * 16)] + "=="
    else [Symbol(Residue(s) * 4)] + "="
  }

  /** The final steps: fill the last symbol with zero bits, then '=' up to a multiple of four. */
  lemma {:induction false} WholeEnds(s: seq<byte>)
    ensures Encode(s) == Whole(s) + Tail(s)
    ensures |Whole(s)| == (4 * |s|) / 3
  {
    if |s| >= 3 {
      hide Symbols, Residue;
      GroupDone(s);
      WholeEnds(s[3..]);
      assert Whole(s) + Tail(s) == Symbols(s[0], s[1], s[2]) + (Whole(s[3..]) + Tail(s[3..]));
    } else {
      hide *;
      FewEnd(s);
    }
  }

  lemma FewEnd(s: seq<byte>)
    requires |s| < 3
    ensures Encode(s) == Whole(s) + Tail(s)
    ensures |Whole(s)| == (4 * |s|) / 3
  {
    hide Symbol, Symbols;
    if |s| == 1 {
      OneByte(s[0]);
    } else if |s| == 2 {
      TwoBytes(s[0], s[1]);
    }
  }

  lemma OneByte(a: byte)
    ensures Symbols(a, 0, 0)[..2] == Symbols(a, 0, 0)[..1] + [Symbol(a % 4 * 16)]
  {
    hide Symbol;
    assert Digits(a, 0, 0)[1] == a % 4 * 16;
  }

  lemma TwoBytes(a: byte, b: byte)
    ensures Symbols(a, b, 0)[..3] == Symbols(a, b, 0)[..2] + [Symbol(b % 16 * 4)]
  {
    hide Symbol;
    assert Digits(a, b, 0)[2] == b % 16 * 4;
  }

  // The low bits of a 32-bit word are those of the number it was cut from.
  lemma CutLow(a: nat)
    ensures var y := Wrap32(a); y % 64 == a % 64 && y % 256 == a % 256 && y % 1024 == a % 1024 && y % 4096 == a % 4096
  {
    Residues(a, a % U32, a / U32);
  }

  lemma Residues(a: nat, y: nat, q: nat)
    requires a == q * 4294967296 + y
    ensures y % 64 == a % 64 && y % 256 == a % 256 && y % 1024 == a % 1024 && y % 4096 == a % 4096
  {
    ModUnique(a, 64, q * 67108864 + y / 64, y % 64);
    ModUnique(a, 256, q * 16777216 + y / 256, y % 256);
    ModUnique(a, 1024, q * 4194304 + y / 1024, y % 1024);
    ModUnique(a, 4096, q * 1048576 + y / 4096, y % 4096);
  }

  // What is sent depends on the low bits only.
  lemma SentLow(y: nat, v: nat, l: nat)
    requires l in {8, 10, 12} && y % Scale(l) == v % Scale(l)
    ensures Sent(y, l) == Sent(v, l) && Low(y, l) == Low(v, l)
  {
    hide Symbol;
    if l == 8 {
      SameDigits(y, v, 4);
    } else if l == 10 {
      SameDigits(y, v, 16);
    } else {
      SameDigits(y, v, 64);
    }
  }

  lemma SameDigits(y: nat, v: nat, k: nat)
    requires k in {4, 16, 64} && y % (64 * k) == v % (64 * k)
    ensures y / k % 64 == v / k % 64 && y % k == v % k
  {
    var m := 64 * k;
    var z := y % m;
    assert y == m * (y / m) + z && v == m * (v / m) + z;
    DigitIs(y, k, y / m, z);
    DigitIs(v, k, v / m, z);
  }

  // The digit above the k's is a part of the residue.
  lemma DigitIs(y: nat, k: nat, q: nat, z: nat)
    requires k in {4, 16, 64} && y == 64 * k * q + z && z < 64 * k
    ensures y % k == z % k && y / k % 64 == z / k
  {
    ModUnique(y, k, 64 * q + z / k, z % k);
    ModUnique(y / k, 64, q, z / k);
  }

  // A byte shifted into the accumulator.
  lemma ShiftIn(x: nat, r: nat, l: nat, b: byte)
    requires l in {0, 2, 4} && x % Scale(l) == r
    ensures var y, v := Wrap32(x * 256 + b), r * 256 + b;
            Sent(y, l + 8) == Sent(v, l + 8) && y % Scale((l + 8) % 6) == Low(v, l + 8)
  {
    hide Symbol, Wrap32, Sent;
    var y, v, q := Wrap32(x * 256 + b), r * 256 + b, x / Scale(l);
    CutLow(x * 256 + b);
    Shifted(x, r, l, b);
    SentLow(y, v, l + 8);
  }

  lemma Shifted(x: nat, r: nat, l: nat, b: byte)
    requires l in {0, 2, 4} && x % Scale(l) == r
    ensures (x * 256 + b) % Scale(l + 8) == (r * 256 + b) % Scale(l + 8)
  {
    var m, q := Scale(l), x / Scale(l);
    assert Scale(l + 8) == 256 * m && r < m;
    hide Scale;
    assert x == m * q + r && (256 * m) * q == 256 * (m * q);
    ModUnique(x * 256 + b, 256 * m, q, r * 256 + b);
    ModUnique(r * 256 + b, 256 * m, 0, r * 256 + b);
  }

  // The last shift fills the symbol with zero bits.
  lemma FillUp(x: nat, r: nat, l: nat)
    requires l in {2, 4} && x % Scale(l) == r && x < U32
    ensures Wrap32(x * Scale(6 - l)) % 64 == r * Scale(6 - l)
  {
    CutLow(x * Scale(6 - l));
    hide Wrap32;
    if l == 2 {
      ModUnique(x * 16, 64, x / 4, r * 16);
    } else {
      ModUnique(x * 4, 64, x / 16, r * 4);
    }
  }

  // A C string of n characters at the start of a buffer.
  ghost predicate Terminated(s: seq<byte>, n: nat) {
    n < |s| && s[n] == 0 && forall i :: 0 <= i < n ==> s[i] != 0
  }

  // The inner loop: send the whole symbols among the l newest bits of x.
  method Emit(out: array<char>, x: nat, bits: nat, from: nat) returns (i: nat, l: nat)
    requires bits in {8, 10, 12} && from + bits / 6 <= out.Length
    modifies out
    ensures l == bits % 6 && i == from + |Sent(x, bits)| && i <= out.Length
    ensures out[..i] == old(out[..from]) + Sent(x, bits)
    ensures forall k :: i <= k < out.Length ==> out[k] == old(out[k])
  {
    hide Code, Symbol, Scale, Sent;
    i, l := from, bits;
    SentStep(x, l);
    while l >= 6
      invariant l in {0, 2, 4, 6, 8, 10, 12} && l % 6 == bits % 6 && from <= i && i + l / 6 == from + bits / 6
      invariant out[..i] + Sent(x, l) == old(out[..from]) + Sent(x, bits)
      invariant forall k :: i <= k < out.Length ==> out[k] == old(out[k])
    {
      SentStep(x, l);
      CodeIsTable(x / Scale(l - 6) % 64);
      ghost var before := out[..i];
      out[i] := Code()[x / Scale(l - 6) % 64];
      i := i + 1;
      l := l - 6;
      assert out[..i] == before + [out[i - 1]];
      assert out[..i] + Sent(x, l) == before + ([out[i - 1]] + Sent(x, l));
    }
    SentStep(x, l);
  }

  lemma SentStep(x: nat, l: nat)
    requires l in {0, 2, 4, 6, 8, 10, 12}
    ensures |Sent(x, l)| == l / 6
    ensures Sent(x, l) == if l < 6 then "" else [Symbol(x / Scale(l - 6) % 64)] + Sent(x, l - 6)
  {
    hide Symbol;
  }

  // Fill with '=' up to a multiple of four.
  method Pad(out: array<char>, from: nat, ghost e: string) returns (i: nat)
    requires from <= |e| < out.Length && |e| % 4 == 0 && |e| < from + 4
    requires out[..from] == e[..from] && forall k :: from <= k < |e| ==> e[k] == '='
    modifies out
    ensures i == |e| && out[..i] == e
    ensures forall k :: i <= k < out.Length ==> out[k] == old(out[k])
  {
    i := from;
    while i % 4 != 0
      invariant from <= i <= |e| && out[..i] == e[..i]
      invariant forall k :: |e| <= k < out.Length ==> out[k] == old(out[k])
      decreases |e| - i
    {
      out[i] := '=';
      i := i + 1;
    }
  }

  // The last symbol, if any, and the padding.
  lemma TailIs(s: seq<byte>)
    ensures var e, w, l := Encode(s), |Whole(s)|, Spare(s);
            w <= |e| && e[..w] == Whole(s) && |e| % 4 == 0 &&
            (l == 0 ==> w == |e|) &&
            (l > 0 ==> w < |e| < w + 4 && e[w] == Symbol(Residue(s) * Scale(6 - l)) &&
                       forall k :: w < k < |e| ==> e[k] == '=')
  {
    hide Symbol, Encode, Whole, Residue;
    WholeEnds(s);
  }

  // What follows the loop: the last symbol and the filling.
  method Finish(out: array<char>, accumulator: nat, l: nat, from: nat, ghost s: seq<byte>) returns (i: nat)
    requires |Encode(s)| < out.Length && from <= out.Length && Running(s, accumulator, l, out[..from])
    modifies out
    ensures i == |Encode(s)| && out[..i] == Encode(s)
    ensures forall k :: i <= k < out.Length ==> out[k] == old(out[k])
  {
    TailIs(s);
    assert l in {0, 2, 4};
    hide Code, Symbol, Encode, Whole, Spare, Residue, Wrap32;
    var x := accumulator;
    i := from;
    if l > 0 {
      FillUp(x, Residue(s), l);
      x := Wrap32(x * Scale(6 - l));
      CodeIsTable(x % 64);
      out[i] := Code()[x % 64];
      i := i + 1;
    }
    i := Pad(out, i, Encode(s));
  }

  // The state of the loop after the string s.
  ghost predicate Running(s: seq<byte>, x: nat, l: nat, sent: string) {
    x < U32 && l in {0, 2, 4} && l == Spare(s) && x % Scale(l) == Residue(s) && sent == Whole(s) &&
      |sent| == 4 * |s| / 3
  }

  lemma RunningStep(s: seq<byte>, b: byte, x: nat, l: nat, sent: string)
    requires Running(s, x, l, sent)
    ensures var y := Wrap32(x * 256 + b); Running(s + [b], y, (l + 8) % 6, sent + Sent(y, l + 8))
    ensures l in {0, 2, 4} && |sent| + (l + 8) / 6 == 4 * (|s| + 1) / 3
  {
    hide Symbol, Symbols, Whole, Residue, Encode, Tail, Wrap32;
    WholeGrows(s, b);
    WholeEnds(s + [b]);
    ShiftIn(x, Residue(s), l, b);
  }

  // The body of the loop: one byte enters the accumulator, and the symbols it completes go out.
  method Feed(out: array<char>, accumulator: nat, bits: nat, from: nat, ghost s: seq<byte>, b: byte)
    returns (x: nat, l: nat, i: nat)
    requires from <= out.Length && Running(s, accumulator, bits, out[..from]) && 4 * (|s| + 1) / 3 <= out.Length
    modifies out
    ensures i <= out.Length && Running(s + [b], x, l, out[..i])
    ensures forall k :: i <= k < out.Length ==> out[k] == old(out[k])
  {
    hide Encode, Sent, Wrap32, Running;
    RunningStep(s, b, accumulator, bits, out[..from]);
    x := Wrap32(accumulator * 256 + b);
    i, l := Emit(out, x, bits + 8, from);
  }

  /** httpclient_base64enc: the standard's encoding of the C string, and a terminator, and nothing else written. */
  method Base64Enc(out: array<char>, input: array<byte>, ghost n: nat)
    requires Terminated(input[..], n) && 4 * ((n + 2) / 3) < out.Length
    modifies out
    ensures var r := Encode(input[..n]);
            out[..|r|] == r && out[|r|] == '\0' && forall k :: |r| < k < out.Length ==> out[k] == old(out[k])
  {
    var i, x, l, p := 0, 0, 0, 0;
    ghost var s := input[..n];
    assert Running([], 0, 0, "");
    assert s[..p] == [] && out[..i] == "";
    hide Encode, Running;
    while input[p] != 0
      invariant 0 <= p <= n && 0 <= x && 0 <= l && 0 <= i <= out.Length
      invariant Running(s[..p], x, l, out[..i])
      invariant forall k :: i <= k < out.Length ==> out[k] == old(out[k])
      decreases n - p
    {
      ghost var before := s[..p];
      assert s[..p + 1] == before + [input[p]];
      x, l, i := Feed(out, x, l, i, before, input[p]);
      p := p + 1;
    }
    assert s[..p] == s;
    i := Finish(out, x, l, i, s);
    out[i] := '\0';
  }

  // ----- Basic authentication -----

  const COLON := 58
  const AUTHB_SIZE := 128
  // sizeof base64buff, AUTHB_SIZE + 3, and of b_auth, (AUTHB_SIZE + 3) * 4 / 3 + 1.
  const PLAIN_SIZE := 131
  const AUTH_SIZE := 175

  lemma {:induction false} NoNul(s: seq<byte>)
    ensures '\0' !in Encode(s)
  {
    hide Symbols, Value, Symbol;
    if |s| > 0 {
      SymbolsPrint(s[0], if |s| > 1 then s[1] else 0, if |s| > 2 then s[2] else 0);
      if |s| > 2 {
        NoNul(s[3..]);
      }
    }
  }

  lemma SymbolsPrint(a: byte, b: byte, c: byte)
    ensures '\0' !in Symbols(a, b, c)
  {
    hide Digits;
  }

  /** The receiver's half: what stands before the first colon, and what after it. */
  function SplitColon(s: seq<byte>): Option<(seq<byte>, seq<byte>)> {
    if s == [] then None
    else if s[0] == COLON then Some(([], s[1..]))
    else
      var rest := SplitColon(s[1..]);
      if rest.None? then None else Some(([s[0]] + rest.value.0, rest.value.1))
  }

  lemma {:induction false} SplitJoined(user: seq<byte>, password: seq<byte>)
    requires COLON !in user
    ensures SplitColon(user + [COLON] + password) == Some((user, password))
  {
    var s := user + [COLON] + password;
    if user == [] {
      assert s[1..] == password;
    } else {
      SplitJoined(user[1..], password);
      assert s[1..] == user[1..] + [COLON] + password;
      assert user == [user[0]] + user[1..];
    }
  }

  /** A user name without a colon and any password come back out of the header. */
  lemma CredentialsBack(user: seq<byte>, password: seq<byte>)
    requires COLON !in user
    ensures var plain := Decode(Encode(user + [COLON] + password));
            plain.Some? && SplitColon(plain.value) == Some((user, password))
  {
    DecodeEncode(user + [COLON] + password);
    SplitJoined(user, password);
  }

  // Append the characters of s to a buffer.
  method CopyInto(buf: array<byte>, at: nat, s: seq<byte>) returns (end: nat)
    requires at + |s| <= buf.Length
    modifies buf
    ensures end == at + |s| && buf[..end] == old(buf[..at]) + s
  {
    end := at;
    ghost var before := buf[..at];
    while end < at + |s|
      invariant at <= end <= at + |s|
      invariant buf[..end] == before + s[..end - at]
    {
      buf[end] := s[end - at];
      end := end + 1;
    }
  }

  method StrLen(a: array<char>, ghost n: nat) returns (len: nat)
    requires n < a.Length && a[n] == '\0' && '\0' !in a[..n]
    ensures len == n
  {
    len := 0;
    while a[len] != '\0'
      invariant len <= n
      decreases n - len
    {
      assert len < n ==> a[len] in a[..n];
      len := len + 1;
    }
  }

  class Client {
    var authUser: seq<byte>
    var authPassword: seq<byte>

    // What httpclient_send_auth may rely on once httpclient_basic_auth has accepted.
    ghost predicate Accepted()
      reads this
    {
      |authUser| + |authPassword| < AUTHB_SIZE && 0 !in authUser && 0 !in authPassword
    }

    constructor ()
      ensures Accepted()
    {
      authUser, authPassword := [], [];
    }

    method BasicAuth(user: seq<byte>, password: seq<byte>) returns (ok: bool)
      requires 0 !in user && 0 !in password
      modifies this
      ensures ok <==> |user| + |password| < AUTHB_SIZE
      ensures ok ==> Accepted() && authUser == user && authPassword == password
      ensures !ok ==> authUser == old(authUser) && authPassword == old(authPassword)
    {
      if |user| + |password| >= AUTHB_SIZE {
        return false;
      }
      authUser, authPassword := user, password;
      ok := true;
    }

    /** The header line; every write above stays inside the two buffers for all accepted credentials. */
    method SendAuth() returns (line: string)
      requires Accepted()
      ensures line == Encode(authUser + [COLON] + authPassword) + "\n" && '\0' !in line
      ensures |line| < AUTH_SIZE
    {
      hide Encode;
      var auth := new char[AUTH_SIZE];
      var plain := new byte[PLAIN_SIZE];
      ghost var s := authUser + [COLON] + authPassword;
      var n := CopyInto(plain, 0, authUser);
      n := CopyInto(plain, n, [COLON]);
      n := CopyInto(plain, n, authPassword);
      plain[n] := 0;
      assert plain[..n] == s;
      Base64Enc(auth, plain, n);
      NoNul(s);
      ghost var r := Encode(s);
      var len := StrLen(auth, |r|);
      auth[len + 1] := '\0';
      len := StrLen(auth, |r|);
      auth[len] := '\n';
      line := auth[..len + 1];
    }
  }

  /** The longest accepted credentials use 129 of the 131 bytes and 174 of the 175. */
  lemma TightBuffers(user: seq<byte>, password: seq<byte>)
    requires |user| + |password| == AUTHB_SIZE - 1
    ensures |user + [COLON] + password| + 1 == 129 && |Encode(user + [COLON] + password) + "\n"| + 1 == 174
  {
  }
}
