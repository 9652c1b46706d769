// Base64: the encoder, and the decoder's two passes over its input.
module Base64 {
  import opened Numbers
  import opened Bytes

  datatype Result = Ok | TooSmall | InvalidCharacter

  const SPACE: Byte := 32
  const CR: Byte := 13
  const LF: Byte := 10
  const PAD: Byte := 61

  // What the decoder's map gives for padding, and for characters that have no place in base64.
  const PADDING: nat := 64
  const NONE: nat := 127

  // A to Z, a to z, 0 to 9, plus and slash.
  function Map(i: nat): Byte
    requires i < 64
  {
    if i < 26 then 65 + i else if i < 52 then 97 + (i - 26) else if i < 62 then 48 + (i - 52) else if i == 62 then 43 else 47
  }

  function Unmap(c: Byte): nat {
    if 65 <= c <= 90 then c - 65
    else if 97 <= c <= 122 then c - 97 + 26
    else if 48 <= c <= 57 then c - 48 + 52
    else if c == 43 then 62
    else if c == 47 then 63
    else if c == PAD then PADDING
    else NONE
  }

  lemma UnmapMap(i: nat)
    requires i < 64
    ensures Unmap(Map(i)) == i && Map(i) != SPACE && Map(i) != CR && Map(i) != LF && Map(i) != PAD
  {
  }

  // ---------------------------------------------------------------- encoding

  function Quad(a: Byte, b: Byte, c: Byte): (r: seq<Byte>)
    ensures |r| == 4
  {
    [Map(a / 4), Map(a % 4 * 16 + b / 16), Map(b % 16 * 4 + c / 64), Map(c % 64)]
  }

  // RFC 1521, section 5.2: three bytes make four characters, and the last ones are filled up.
  function Encoded(s: seq<Byte>): (r: seq<Byte>)
    ensures |r| == 4 * ((|s| + 2) / 3)
  {
    if s == [] then []
    else if |s| == 1 then Quad(s[0], 0, 0)[..2] + [PAD, PAD]
    else if |s| == 2 then Quad(s[0], s[1], 0)[..3] + [PAD]
    else Quad(s[0], s[1], s[2]) + Encoded(s[3..])
  }

  // Four characters, after those already written.
  method Put(dst: array<Byte>, p: nat, quad: seq<Byte>, ghost written: seq<Byte>)
    requires p + 4 <= dst.Length && |quad| == 4 && dst[..p] == written
    modifies dst
    ensures dst[..p + 4] == written + quad
  {
    dst[p], dst[p + 1], dst[p + 2], dst[p + 3] := quad[0], quad[1], quad[2], quad[3];
    assert dst[p..p + 4] == quad;
    assert dst[..p] == written;
  }

  lemma EncodedStep(s: seq<Byte>, i: nat)
    requires i + 3 <= |s|
    ensures Encoded(s[i..]) == Quad(s[i], s[i + 1], s[i + 2]) + Encoded(s[i + 3..])
  {
    assert s[i..][3..] == s[i + 3..];
  }

  // The source masks each value to six bits once more.
  function MaskedQuad(a: Byte, b: Byte, c: Byte): (r: seq<Byte>)
    ensures |r| == 4
  {
    [Map(a / 4 % 64), Map((a % 4 * 16 + b / 16) % 64), Map((b % 16 * 4 + c / 64) % 64), Map(c % 64)]
  }

  lemma MaskedQuadSame(a: Byte, b: Byte, c: Byte)
    ensures MaskedQuad(a, b, c) == Quad(a, b, c)
  {
    assert a / 4 % 64 == a / 4;
    assert (a % 4 * 16 + b / 16) % 64 == a % 4 * 16 + b / 16;
    assert (b % 16 * 4 + c / 64) % 64 == b % 16 * 4 + c / 64;
  }

  lemma GroupWritten(written: seq<Byte>, src: seq<Byte>, i: nat, quad: seq<Byte>)
    requires i + 3 <= |src| && quad == MaskedQuad(src[i], src[i + 1], src[i + 2])
    requires written + Encoded(src[i..]) == Encoded(src)
    ensures written + quad + Encoded(src[i + 3..]) == Encoded(src)
    ensures |written| + 4 + |Encoded(src[i + 3..])| == |Encoded(src)|
  {
    EncodedStep(src, i);
    MaskedQuadSame(src[i], src[i + 1], src[i + 2]);
    hide Encoded, Quad, MaskedQuad;
    assert written + (quad + Encoded(src[i + 3..])) == written + quad + Encoded(src[i + 3..]);
  }

  method EncodeWhole(dst: array<Byte>, src: seq<Byte>) returns (i: nat, p: nat)
    requires dst.Length > |Encoded(src)|
    modifies dst
    ensures i <= |src| < i + 3 && p + |Encoded(src[i..])| == |Encoded(src)| && p <= dst.Length
    ensures dst[..p] + Encoded(src[i..]) == Encoded(src)
  {
    i, p := 0, 0;
    assert src[0..] == src && dst[..0] == [];
    hide *;
    while i + 3 <= |src|
      invariant i <= |src| && p <= dst.Length && p + |Encoded(src[i..])| == |Encoded(src)|
      invariant dst[..p] + Encoded(src[i..]) == Encoded(src)
      decreases |src| - i
    {
      var quad := MaskedQuad(src[i], src[i + 1], src[i + 2]);
      ghost var written := dst[..p];
      GroupWritten(written, src, i, quad);
      Put(dst, p, quad, written);
      p, i := p + 4, i + 3;
    }
  }

  method Encode(dst: array<Byte>, src: seq<Byte>) returns (r: Result, olen: nat)
    modifies dst
    ensures r == Ok ==> olen == |Encoded(src)| && olen <= dst.Length && dst[..olen] == Encoded(src)
    ensures r == Ok && src != [] ==> olen < dst.Length && dst[olen] == 0
    ensures r == TooSmall <==> src != [] && (dst.Length < |Encoded(src)| + 1 || |Encoded(src)| > SIZE_MAX - 1)
    ensures r == TooSmall ==> dst[..] == old(dst[..])
    ensures r == TooSmall ==> olen == if |Encoded(src)| <= SIZE_MAX - 1 then |Encoded(src)| + 1 else SIZE_MAX
    ensures r != InvalidCharacter
  {
    if |src| == 0 {
      return Ok, 0;
    }
    var n := |src| / 3 + if |src| % 3 != 0 then 1 else 0;
    assert |Encoded(src)| == 4 * n;
    if n > (SIZE_MAX - 1) / 4 {
      return TooSmall, SIZE_MAX;
    }
    n := n * 4;
    if dst.Length < n + 1 {
      return TooSmall, n + 1;
    }
    olen := EncodeAll(dst, src);
    r := Ok;
  }

  lemma LastQuad(s: seq<Byte>, c1: Byte, c2: Byte, third: Byte)
    requires 0 < |s| < 3 && c1 == s[0] && c2 == (if |s| == 2 then s[1] else 0)
    requires third == if |s| == 2 then Map(c2 % 16 * 4 % 64) else PAD
    ensures Encoded(s) == [Map(c1 / 4 % 64), Map((c1 % 4 * 16 + c2 / 16) % 64), third, PAD]
  {
    hide Map, Quad, MaskedQuad;
    var quad := Quad(c1, c2, 0);
    assert Encoded(s) == if |s| == 1 then quad[..2] + [PAD, PAD] else quad[..3] + [PAD];
    LastQuadParts(c1, c2);
    hide Encoded;
  }

  lemma LastQuadParts(c1: Byte, c2: Byte)
    ensures var quad := Quad(c1, c2, 0);
            |quad| == 4 && quad[0] == Map(c1 / 4 % 64) && quad[1] == Map((c1 % 4 * 16 + c2 / 16) % 64)
            && quad[2] == Map(c2 % 16 * 4 % 64)
  {
    MaskedQuadSame(c1, c2, 0);
    hide Map;
  }

  method EncodeAll(dst: array<Byte>, src: seq<Byte>) returns (olen: nat)
    requires dst.Length > |Encoded(src)|
    modifies dst
    ensures olen == |Encoded(src)| && dst[..olen] == Encoded(src) && dst[olen] == 0
  {
    var i, p := EncodeWhole(dst, src);
    assert Encoded([]) == [];
    if i < |src| {
      var c1 := src[i];
      var c2 := if i + 1 < |src| then src[i + 1] else 0;
      var third := if i + 1 < |src| then Map(c2 % 16 * 4 % 64) else PAD;
      LastQuad(src[i..], c1, c2, third);
      hide Encoded, Map;
      ghost var written := dst[..p];
      Put(dst, p, [Map(c1 / 4 % 64), Map((c1 % 4 * 16 + c2 / 16) % 64), third, PAD], written);
      p := p + 4;
    }
    olen := p;
    ghost var written := dst[..p];
    dst[p] := 0;
    assert dst[..p] == written;
  }

  // ---------------------------------------------------------------- decoding

  predicate Skipped(c: Byte) {
    c == CR || c == LF || c == SPACE
  }

  // The values of the characters that are not line ends or spaces.
  function Symbols(src: seq<Byte>): (r: seq<nat>)
    ensures |r| <= |src|
  {
    if src == [] then []
    else if Skipped(src[|src| - 1]) then Symbols(src[..|src| - 1])
    else Symbols(src[..|src| - 1]) + [Unmap(src[|src| - 1])]
  }

  function Pads(sym: seq<nat>): (r: nat)
    ensures r <= |sym|
  {
    if sym == [] then 0 else Pads(sym[..|sym| - 1]) + if sym[|sym| - 1] == PADDING then 1 else 0
  }

  // The number four symbols stand for.
  function Word(sym: seq<nat>): nat
    requires |sym| == 4
  {
    ((sym[0] % 64 * 64 + sym[1] % 64) * 64 + sym[2] % 64) * 64 + sym[3] % 64
  }

  function ByteOf(w: nat, k: nat): Byte
    requires k < 3
  {
    if k == 0 then w / 65536 % 256 else if k == 1 then w / 256 % 256 else w % 256
  }

  // The first n bytes of a word of three.
  function Leading(w: nat, n: int): (r: seq<Byte>)
    ensures |r| == if n <= 0 then 0 else if n >= 3 then 3 else n
  {
    (if n > 0 then [ByteOf(w, 0)] else []) + (if n > 1 then [ByteOf(w, 1)] else []) + (if n > 2 then [ByteOf(w, 2)] else [])
  }

  // What the first g groups of four symbols decode to; each padding seen so far takes a byte off a group.
  function Groups(sym: seq<nat>, g: nat): seq<Byte>
    requires 4 * g <= |sym|
  {
    if g == 0 then [] else Groups(sym, g - 1) + Leading(Word(sym[4 * g - 4..4 * g]), 3 - Pads(sym[..4 * g]))
  }

  // Symbols that do not fill a group come to nothing.
  function Output(sym: seq<nat>): seq<Byte> {
    Groups(sym, |sym| / 4)
  }

  // The first pass's estimate, in the form that does not overflow.
  function Estimate(n: nat, j: nat): int {
    6 * (n / 8) + (6 * (n % 8) + 7) / 8 - j
  }

  // ---------------------------------------------------------------- what is accepted

  // From place k on there are only spaces before a line end or the end.
  predicate EndsLine(src: seq<Byte>, k: nat)
    requires k <= |src|
    decreases |src| - k
  {
    || k == |src|
    || src[k] == LF
    || (src[k] == CR && k + 1 < |src| && src[k + 1] == LF)
    || (src[k] == SPACE && EndsLine(src, k + 1))
  }

  predicate GoodAt(src: seq<Byte>, k: nat)
    requires k < |src|
  {
    if src[k] == SPACE then EndsLine(src, k + 1)
    else if src[k] == CR then k + 1 < |src| && src[k + 1] == LF
    else src[k] == LF || Unmap(src[k]) != NONE
  }

  ghost predicate PadsLast(sym: seq<nat>) {
    forall a, b :: 0 <= a < b < |sym| && sym[a] == PADDING ==> sym[b] == PADDING
  }

  // Spaces only at the end of a line, no carriage return alone, no foreign characters, and at most two
  // paddings, at the end.
  ghost predicate Accepted(src: seq<Byte>) {
    && (forall k :: 0 <= k < |src| ==> GoodAt(src, k))
    && Pads(Symbols(src)) <= 2
    && PadsLast(Symbols(src))
  }

  lemma SymbolsNext(src: seq<Byte>, i: nat)
    requires i < |src|
    ensures Symbols(src[..i + 1]) == if Skipped(src[i]) then Symbols(src[..i]) else Symbols(src[..i]) + [Unmap(src[i])]
  {
    assert src[..i + 1][..i] == src[..i];
  }

  // What is wrong with a beginning is wrong with the whole.
  lemma {:induction false} SymbolsPrefix(src: seq<Byte>, i: nat)
    requires i <= |src|
    ensures Symbols(src[..i]) <= Symbols(src)
    decreases |src| - i
  {
    if i < |src| {
      SymbolsNext(src, i);
      SymbolsPrefix(src, i + 1);
    } else {
      assert src[..i] == src;
    }
  }

  lemma {:induction false} PadsPrefix(sym: seq<nat>, i: nat)
    requires i <= |sym|
    ensures Pads(sym[..i]) <= Pads(sym)
    decreases |sym| - i
  {
    if i < |sym| {
      assert sym[..i + 1][..i] == sym[..i];
      PadsPrefix(sym, i + 1);
    } else {
      assert sym[..i] == sym;
    }
  }

  lemma RejectedBeginning(src: seq<Byte>, i: nat)
    requires i <= |src| && !(Pads(Symbols(src[..i])) <= 2 && PadsLast(Symbols(src[..i])))
    ensures !Accepted(src)
  {
    SymbolsPrefix(src, i);
    PadsPrefix(Symbols(src), |Symbols(src[..i])|);
    assert Symbols(src)[..|Symbols(src[..i])|] == Symbols(src[..i]);
  }

  // The first i characters have been looked at.
  ghost predicate Checked(src: seq<Byte>, i: nat, n: nat, j: nat)
    requires i <= |src|
  {
    && (forall k :: 0 <= k < i ==> GoodAt(src, k))
    && n == |Symbols(src[..i])| && j == Pads(Symbols(src[..i])) && j <= 2
    && PadsLast(Symbols(src[..i]))
  }

  lemma {:induction false} NoPads(sym: seq<nat>)
    ensures Pads(sym) == 0 <==> forall a :: 0 <= a < |sym| ==> sym[a] != PADDING
  {
    if sym != [] {
      NoPads(sym[..|sym| - 1]);
    }
  }

  lemma AppendSymbol(sym: seq<nat>, v: nat)
    requires PadsLast(sym)
    ensures Pads(sym + [v]) == Pads(sym) + if v == PADDING then 1 else 0
    ensures PadsLast(sym + [v]) <==> v == PADDING || Pads(sym) == 0
  {
    NoPads(sym);
    var next := sym + [v];
    assert next[..|next| - 1] == sym;
    if v != PADDING && Pads(sym) != 0 {
      var a :| 0 <= a < |sym| && sym[a] == PADDING;
      assert next[a] == PADDING && next[|sym|] == v;
    }
  }

  lemma SymbolChecked(src: seq<Byte>, i: nat, n: nat, j: nat)
    requires i < |src| && Checked(src, i, n, j) && !Skipped(src[i]) && Unmap(src[i]) != NONE
    ensures var j' := j + if src[i] == PAD then 1 else 0;
            if j' <= 2 && (src[i] == PAD || j == 0) then Checked(src, i + 1, n + 1, j') else !Accepted(src)
  {
    hide Symbols, Pads, EndsLine, PadsLast, Accepted;
    SymbolsNext(src, i);
    AppendSymbol(Symbols(src[..i]), Unmap(src[i]));
    if !(j + (if src[i] == PAD then 1 else 0) <= 2 && (src[i] == PAD || j == 0)) {
      RejectedBeginning(src, i + 1);
    }
  }

  lemma SkipChecked(src: seq<Byte>, i: nat, n: nat, j: nat)
    requires i < |src| && Checked(src, i, n, j) && Skipped(src[i]) && GoodAt(src, i)
    ensures Checked(src, i + 1, n, j)
  {
    SymbolsNext(src, i);
    hide Symbols, Pads, EndsLine;
  }

  // Spaces up to place to, where a line ends or not.
  lemma {:induction false} SpacesEnd(src: seq<Byte>, from: nat, to: nat)
    requires from <= to <= |src| && (forall k :: from <= k < to ==> src[k] == SPACE)
    requires EndsLine(src, to)
    ensures forall k: nat :: from <= k <= to ==> EndsLine(src, k)
    decreases |src| - from
  {
    if from < to {
      SpacesEnd(src, from + 1, to);
    }
  }

  lemma {:induction false} SpacesChecked(src: seq<Byte>, from: nat, to: nat, n: nat, j: nat)
    requires from <= to <= |src| && (forall k :: from <= k < to ==> src[k] == SPACE)
    requires EndsLine(src, to) && Checked(src, from, n, j)
    ensures Checked(src, to, n, j)
    decreases |src| - from
  {
    if from < to {
      SpacesEnd(src, from, to);
      SkipChecked(src, from, n, j);
      SpacesChecked(src, from + 1, to, n, j);
    }
  }

  // The first pass: validity, the number of symbols and the number of paddings.
  method Check(src: seq<Byte>) returns (valid: bool, n: nat, j: nat)
    ensures valid <==> Accepted(src)
    ensures valid ==> n == |Symbols(src)| && j == Pads(Symbols(src))
  {
    var i := 0;
    n, j := 0, 0;
    NothingChecked(src);
    hide *;
    while i < |src|
      invariant 0 <= i <= |src|
      invariant Checked(src, i, n, j)
    {
      ghost var from := i;
      var x := 0;
      while i < |src| && src[i] == SPACE
        invariant from <= i <= |src| && x == i - from && forall k :: from <= k < i ==> src[k] == SPACE
      {
        i, x := i + 1, x + 1;
      }
      LineEnd(src, i);
      if i == |src| {
        SpacesChecked(src, from, i, n, j);
        break;
      }
      if |src| - i >= 2 && src[i] == CR && src[i + 1] == LF {
        SpacesChecked(src, from, i, n, j);
        SkipChecked(src, i, n, j);
        i := i + 1;
        continue;
      }
      if src[i] == LF {
        SpacesChecked(src, from, i, n, j);
        SkipChecked(src, i, n, j);
        i := i + 1;
        continue;
      }
      if x != 0 {
        BadSpace(src, i);
        return false, n, j;
      }
      CharacterChecked(src, i, n, j);
      if src[i] == PAD {
        j := j + 1;
        if j > 2 {
          return false, n, j;
        }
      }
      if src[i] > 127 || Unmap(src[i]) == NONE {
        return false, n, j;
      }
      if Unmap(src[i]) < 64 && j != 0 {
        return false, n, j;
      }
      n := n + 1;
      i := i + 1;
    }
    AllChecked(src, n, j);
    valid := true;
  }

  lemma NothingChecked(src: seq<Byte>)
    ensures Checked(src, 0, 0, 0)
  {
    assert src[..0] == [];
  }

  lemma AllChecked(src: seq<Byte>, n: nat, j: nat)
    requires Checked(src, |src|, n, j)
    ensures Accepted(src) && n == |Symbols(src)| && j == Pads(Symbols(src))
  {
    hide Symbols, Pads, PadsLast, GoodAt;
    assert src[..|src|] == src;
  }

  // A character that is not a space and starts no line end.
  lemma CharacterChecked(src: seq<Byte>, i: nat, n: nat, j: nat)
    requires i < |src| && Checked(src, i, n, j) && src[i] != SPACE && !EndsLine(src, i)
    ensures Unmap(src[i]) == NONE || src[i] > 127 ==> !Accepted(src)
    ensures src[i] == PAD <==> Unmap(src[i]) == PADDING
    ensures Unmap(src[i]) < 64 || Unmap(src[i]) == PADDING || Unmap(src[i]) == NONE
    ensures Unmap(src[i]) != NONE ==>
              var j' := j + if src[i] == PAD then 1 else 0;
              if j' <= 2 && (src[i] == PAD || j == 0) then Checked(src, i + 1, n + 1, j') else !Accepted(src)
  {
    hide Checked, Accepted, EndsLine;
    LineEnd(src, i);
    if Unmap(src[i]) != NONE {
      SymbolChecked(src, i, n, j);
    } else {
      BadPlace(src, i);
    }
  }

  lemma BadSpace(src: seq<Byte>, i: nat)
    requires 0 < i < |src| && src[i - 1] == SPACE && src[i] != SPACE && !EndsLine(src, i)
    ensures !Accepted(src)
  {
    BadPlace(src, i - 1);
  }

  lemma LineEnd(src: seq<Byte>, i: nat)
    requires i <= |src|
    ensures i < |src| && src[i] != SPACE ==>
              (EndsLine(src, i) <==> src[i] == LF || (src[i] == CR && i + 1 < |src| && src[i + 1] == LF))
    ensures i == |src| ==> EndsLine(src, i)
  {
  }

  lemma BadPlace(src: seq<Byte>, k: nat)
    requires k < |src| && !GoodAt(src, k)
    ensures !Accepted(src)
  {
  }

  // ---------------------------------------------------------------- how much is written

  lemma {:induction false} GroupsPrefix(sym: seq<nat>, rest: seq<nat>, g: nat)
    requires 4 * g <= |sym|
    ensures Groups(sym + rest, g) == Groups(sym, g)
  {
    hide Word, Leading, Pads;
    if g > 0 {
      GroupsPrefix(sym, rest, g - 1);
      assert (sym + rest)[4 * g - 4..4 * g] == sym[4 * g - 4..4 * g];
      assert (sym + rest)[..4 * g] == sym[..4 * g];
    }
  }

  lemma PadStays(sym: seq<nat>, a: nat)
    requires PadsLast(sym) && a + 3 < |sym| && sym[a] == PADDING
    ensures Pads(sym) >= 3
  {
    var m := |sym|;
    assert sym[..m - 1][..m - 2] == sym[..m - 2] && sym[..m - 2][..m - 3] == sym[..m - 3];
    assert Pads(sym) == Pads(sym[..m - 1]) + 1 == Pads(sym[..m - 2]) + 2 == Pads(sym[..m - 3]) + 3;
  }

  // Paddings are among the last two symbols.
  lemma PadsAtEnd(sym: seq<nat>)
    requires PadsLast(sym) && Pads(sym) <= 2 && |sym| >= 4
    ensures Pads(sym[..|sym| - 4]) == 0
  {
    hide Pads, PadsLast;
    var head := sym[..|sym| - 4];
    NoPads(head);
    forall a: nat | a < |head| ensures head[a] != PADDING {
      if sym[a] == PADDING {
        PadStays(sym, a);
      }
    }
  }

  lemma {:induction false} GroupsWithoutPads(sym: seq<nat>, g: nat)
    requires 4 * g <= |sym| && Pads(sym[..4 * g]) == 0
    ensures |Groups(sym, g)| == 3 * g
  {
    if g > 0 {
      PadsPrefix(sym[..4 * g], 4 * g - 4);
      assert sym[..4 * g][..4 * g - 4] == sym[..4 * g - 4];
      GroupsWithoutPads(sym, g - 1);
    }
  }

  lemma {:induction false} PadsOfPrefix(sym: seq<nat>, r: nat)
    requires PadsLast(sym) && r <= |sym|
    ensures Pads(sym[..|sym| - r]) == if Pads(sym) > r then Pads(sym) - r else 0
    ensures PadsLast(sym[..|sym| - r])
  {
    if r == 0 {
      assert sym[..|sym|] == sym;
    } else {
      var init := sym[..|sym| - 1];
      assert sym == init + [sym[|sym| - 1]];
      assert PadsLast(init);
      AppendSymbol(init, sym[|sym| - 1]);
      PadsOfPrefix(init, r - 1);
      assert init[..|init| - (r - 1)] == sym[..|sym| - r];
    }
  }

  // Each whole group gives three bytes, less the paddings in the last one.
  lemma OutputLength(sym: seq<nat>)
    requires PadsLast(sym) && Pads(sym) <= 2
    ensures |Output(sym)| == if |sym| < 4 then 0 else 3 * (|sym| / 4) - (if Pads(sym) > |sym| % 4 then Pads(sym) - |sym| % 4 else 0)
  {
    WholeGroupsLength(sym, |sym| / 4, |sym| % 4);
  }

  lemma WholeGroupsLength(sym: seq<nat>, g: nat, r: nat)
    requires PadsLast(sym) && Pads(sym) <= 2 && |sym| == 4 * g + r && r < 4
    ensures |Groups(sym, g)| == if g == 0 then 0 else 3 * g - (if Pads(sym) > r then Pads(sym) - r else 0)
  {
    hide Pads, PadsLast;
    if g > 0 {
      PadsOfPrefix(sym, r);
      var whole := sym[..4 * g];
      PadsAtEnd(whole);
      assert whole[..|whole| - 4] == sym[..4 * (g - 1)];
      GroupsWithoutPads(sym, g - 1);
      LastGroup(sym, g);
    }
  }

  lemma LastGroup(sym: seq<nat>, g: nat)
    requires 0 < g && 4 * g <= |sym| && Pads(sym[..4 * g]) <= 2
    ensures |Groups(sym, g)| == |Groups(sym, g - 1)| + 3 - Pads(sym[..4 * g])
  {
    hide Word, Pads;
  }

  // The estimate of the first pass, in a form that does not overflow, is never too small, and exact
  // unless symbols are left over that no padding accounts for.
  lemma EstimateIsEnough(sym: seq<nat>)
    requires PadsLast(sym) && Pads(sym) <= 2
    ensures 0 <= Estimate(|sym|, Pads(sym)) && |Output(sym)| <= Estimate(|sym|, Pads(sym))
    ensures |Output(sym)| == Estimate(|sym|, Pads(sym)) <==> |sym| % 4 <= Pads(sym)
  {
    OutputLength(sym);
    EstimateForm(|sym|, Pads(sym));
  }

  // Two symbols alone, the bytes AA, are accepted and asked two bytes of room for, and decode to nothing.
  lemma EstimateTooLarge()
    ensures var src: seq<Byte> := [65, 65]; var sym := Symbols(src);
            Accepted(src) && Output(sym) == [] && Estimate(|sym|, Pads(sym)) == 2
  {
    var src: seq<Byte> := [65, 65];
    assert src[..0] == [] && src[..2] == src;
    SymbolsNext(src, 0);
    SymbolsNext(src, 1);
    assert forall k :: 0 <= k < |src| ==> GoodAt(src, k);
    NoPadsInTwo(0, 0);
    hide Symbols, GoodAt;
    assert Symbols(src) == [0, 0];
    assert Estimate(2, 0) == 2;
  }

  lemma NoPadsInTwo(a: nat, b: nat)
    requires a != PADDING && b != PADDING
    ensures Pads([a, b]) == 0 && PadsLast([a, b]) && Output([a, b]) == []
  {
    assert [a, b][..1] == [a] && [a][..0] == [];
  }

  lemma EstimateForm(n: nat, j: nat)
    ensures Estimate(n, j) == 3 * (n / 4) + n % 4 - j
  {
    var h, l := n / 8, n % 8;
    assert n / 4 == 2 * h + l / 4 && n % 4 == l % 4;
  }

  // ---------------------------------------------------------------- the second pass

  // What the last n symbols have left in the low bits of the accumulator.
  function Pending(sym: seq<nat>, n: nat): nat
    requires n <= |sym|
  {
    if n == 0 then 0 else Pending(sym[..|sym| - 1], n - 1) * 64 + sym[|sym| - 1] % 64
  }

  lemma PendingWord(sym: seq<nat>)
    requires |sym| >= 4
    ensures Pending(sym, 4) == Word(sym[|sym| - 4..])
  {
    var m := |sym|;
    assert Pending(sym[..m - 3], 1) == sym[m - 4] % 64;
    assert sym[..m - 2][..m - 3] == sym[..m - 3] && sym[..m - 1][..m - 2] == sym[..m - 2];
    assert Pending(sym[..m - 2], 2) == Pending(sym[..m - 3], 1) * 64 + sym[m - 3] % 64;
    assert Pending(sym[..m - 1], 3) == Pending(sym[..m - 2], 2) * 64 + sym[m - 2] % 64;
  }

  // Six more bits are shifted into a word of 32 bits.
  function Shifted(x: nat, v: nat): nat {
    (x * 64 + v % 64) % 0x1_0000_0000
  }

  lemma ShiftedLow(x: nat, v: nat, n: nat, low: nat)
    requires n < 4 && x % Pow(64, n) == low
    ensures Shifted(x, v) % Pow(64, n + 1) == low * 64 + v % 64
  {
    assert Pow(64, 1) == 64 && Pow(64, 2) == 4096 && Pow(64, 3) == 262144 && Pow(64, 4) == 16777216;
    var p := Pow(64, n);
    var q := x / p;
    assert x == q * p + low;
    assert x * 64 + v % 64 == q * (64 * p) + (low * 64 + v % 64);
    DivModUnique(x * 64 + v % 64, 64 * p, q, low * 64 + v % 64);
    WordRemainder(x * 64 + v % 64);
  }

  // A remainder by a multiple keeps the remainder by a divisor.
  lemma RemainderOfRemainder(y: nat, a: nat, b: nat)
    requires a > 0 && b > 0
    ensures y % (a * b) % b == y % b
  {
    var h, l := y / (a * b), y % (a * b);
    DivModSplit(y, a * b);
    DivModSplit(l, b);
    assert y == (h * a + l / b) * b + l % b;
    DivModUnique(y, b, h * a + l / b, l % b);
  }

  lemma WordRemainder(y: nat)
    ensures y % 0x1_0000_0000 % 64 == y % 64 && y % 0x1_0000_0000 % 4096 == y % 4096
    ensures y % 0x1_0000_0000 % 262144 == y % 262144 && y % 0x1_0000_0000 % 16777216 == y % 16777216
  {
    RemainderOfRemainder(y, 67108864, 64);
    RemainderOfRemainder(y, 1048576, 4096);
    RemainderOfRemainder(y, 16384, 262144);
    RemainderOfRemainder(y, 256, 16777216);
  }

  // The bytes taken from the accumulator depend on its low 24 bits only.
  lemma LowBytes(x: nat, w: nat)
    requires x % 16777216 == w
    ensures x / 65536 % 256 == ByteOf(w, 0) && x / 256 % 256 == ByteOf(w, 1) && x % 256 == ByteOf(w, 2)
  {
    var h := x / 16777216;
    assert x == 16777216 * h + w;
    DivModUnique(x, 65536, 256 * h + w / 65536, w % 65536);
    DivModUnique(256 * h + w / 65536, 256, h, w / 65536);
    DivModUnique(x, 256, 65536 * h + w / 256, w % 256);
    DivModUnique(65536 * h + w / 256, 256, 256 * h + w / 65536, w / 256 % 256);
  }

  // ---------------------------------------------------------------- decoding in memory

  // The second pass after some characters, with sym the symbols among them: g whole groups and n more.
  ghost predicate Decoding(sym: seq<nat>, g: nat, n: nat, j: int, x: nat, out: seq<Byte>) {
    && |sym| == 4 * g + n && n < 4
    && j == 3 - Pads(sym)
    && x % Pow(64, n) == Pending(sym, n)
    && out == Groups(sym, g)
  }

  lemma NothingTaken()
    ensures Decoding([], 0, 0, 3, 0, [])
  {
  }

  lemma AllTaken(sym: seq<nat>, g: nat, n: nat, j: int, x: nat, out: seq<Byte>)
    requires Decoding(sym, g, n, j, x, out)
    ensures out == Output(sym)
  {
    assert |sym| / 4 == g;
  }

  // A symbol is added to the accumulator.
  lemma SymbolShifted(sym: seq<nat>, v: nat, n: nat, x: nat)
    requires n < 4 && n <= |sym| && x % Pow(64, n) == Pending(sym, n)
    ensures Shifted(x, v) % Pow(64, n + 1) == Pending(sym + [v], n + 1)
  {
    assert (sym + [v])[..|sym|] == sym;
    ShiftedLow(x, v, n, Pending(sym, n));
  }

  lemma PadCounted(sym: seq<nat>, v: nat)
    ensures Pads(sym + [v]) == Pads(sym) + if v == PADDING then 1 else 0
  {
    assert (sym + [v])[..|sym|] == sym;
  }

  lemma SymbolTaken(sym: seq<nat>, v: nat, g: nat, n: nat, j: int, x: nat, out: seq<Byte>)
    requires Decoding(sym, g, n, j, x, out)
    ensures var next, x', j' := sym + [v], Shifted(x, v), j - if v == PADDING then 1 else 0;
            if n < 3 then Decoding(next, g, n + 1, j', x', out) else Decoding(next, g + 1, 0, j', x', out + Taken(x', j'))
  {
    hide Pads, Groups, Shifted, Taken, Pending, Pow;
    SymbolShifted(sym, v, n, x);
    PadCounted(sym, v);
    GroupsPrefix(sym, [v], g);
    if n == 3 {
      GroupTaken(sym + [v], g + 1, Shifted(x, v));
      EmptyPending(sym + [v], Shifted(x, v));
    }
  }

  lemma EmptyPending(sym: seq<nat>, x: nat)
    ensures x % Pow(64, 0) == Pending(sym, 0)
  {
  }

  lemma GroupTaken(sym: seq<nat>, g: nat, x: nat)
    requires g > 0 && |sym| == 4 * g && x % Pow(64, 4) == Pending(sym, 4)
    ensures Groups(sym, g) == Groups(sym, g - 1) + Taken(x, 3 - Pads(sym))
  {
    hide Word, Leading, Pads;
    assert sym[..4 * g] == sym;
    PendingWord(sym);
    assert Pow(64, 4) == 16777216;
    LowBytes(x, Word(sym[|sym| - 4..]));
    TakenIsLeading(x, Word(sym[|sym| - 4..]), 3 - Pads(sym));
  }

  // What the source writes from its accumulator.
  function Taken(x: nat, j: int): (r: seq<Byte>)
    ensures |r| == if j <= 0 then 0 else if j >= 3 then 3 else j
  {
    (if j > 0 then [x / 65536 % 256] else []) + (if j > 1 then [x / 256 % 256] else []) + (if j > 2 then [x % 256] else [])
  }

  lemma TakenIsLeading(x: nat, w: nat, j: int)
    requires x / 65536 % 256 == ByteOf(w, 0) && x / 256 % 256 == ByteOf(w, 1) && x % 256 == ByteOf(w, 2)
    ensures Taken(x, j) == Leading(w, j)
  {
    hide ByteOf;
  }

  lemma {:induction false} GroupsGrow(sym: seq<nat>, g: nat, h: nat)
    requires g <= h && 4 * h <= |sym|
    ensures |Groups(sym, g)| <= |Groups(sym, h)|
    decreases h - g
  {
    hide Word, Leading, Pads;
    if g < h {
      GroupsGrow(sym, g, h - 1);
    }
  }

  // Whatever has been written so far is no more than the whole output.
  lemma OutputGrows(src: seq<Byte>, i: nat, g: nat)
    requires i <= |src| && 4 * g <= |Symbols(src[..i])|
    ensures |Groups(Symbols(src[..i]), g)| <= |Output(Symbols(src))|
  {
    SymbolsPrefix(src, i);
    var part, all := Symbols(src[..i]), Symbols(src);
    assert all == part + all[|part|..];
    GroupsPrefix(part, all[|part|..], g);
    GroupsGrow(all, g, |all| / 4);
  }

  // What lies from place p on is as it was.
  ghost predicate TailKept(was: seq<Byte>, now: seq<Byte>, p: nat) {
    |was| == |now| && forall k :: p <= k < |was| ==> now[k] == was[k]
  }

  lemma TailKeptNext(a: seq<Byte>, b: seq<Byte>, c: seq<Byte>, p: nat, q: nat)
    requires TailKept(a, b, p) && TailKept(b, c, q) && p <= q
    ensures TailKept(a, c, q)
  {
  }

  lemma TailUntouched(a: seq<Byte>, p: nat)
    ensures TailKept(a, a, p)
  {
  }

  method Append(dst: array<Byte>, p: nat, bytes: seq<Byte>, ghost out: seq<Byte>) returns (p': nat)
    requires p + |bytes| <= dst.Length && dst[..p] == out
    modifies dst
    ensures p' == p + |bytes| && dst[..p'] == out + bytes && TailKept(old(dst[..]), dst[..], p')
  {
    p' := p;
    for k := 0 to |bytes|
      invariant p' == p + k && dst[..p'] == out + bytes[..k] && TailKept(old(dst[..]), dst[..], p')
    {
      ghost var before := dst[..p'];
      dst[p'] := bytes[k];
      p' := p' + 1;
      assert dst[..p'] == before + [bytes[k]];
    }
  }

  // One symbol goes into the accumulator; a full accumulator is written out.
  method TakeSymbol(dst: array<Byte>, p: nat, v: nat, n: nat, j: int, x: nat,
                    ghost src: seq<Byte>, ghost i: nat, ghost g: nat, ghost out: seq<Byte>)
    returns (p': nat, n': nat, j': int, x': nat, ghost g': nat, ghost out': seq<Byte>)
    requires i < |src| && !Skipped(src[i]) && v == Unmap(src[i])
    requires Decoding(Symbols(src[..i]), g, n, j, x, out)
    requires |Output(Symbols(src))| <= dst.Length && p == |out| <= dst.Length && dst[..p] == out
    modifies dst
    ensures Decoding(Symbols(src[..i + 1]), g', n', j', x', out')
    ensures p' == |out'| <= dst.Length && dst[..p'] == out' && p <= p' && TailKept(old(dst[..]), dst[..], p')
  {
    hide *;
    SymbolsNext(src, i);
    CountBelowFour(Symbols(src[..i]), g, n, j, x, out);
    SymbolTaken(Symbols(src[..i]), v, g, n, j, x, out);
    TailUntouched(dst[..], p);
    p', g', out' := p, g, out;
    j' := j - if v == PADDING then 1 else 0;
    x' := Shifted(x, v);
    n' := n + 1;
    if n' == 4 {
      n' := 0;
      GroupFits(src, i + 1, g + 1, j', x', out + Taken(x', j'));
      p' := Append(dst, p, Taken(x', j'), out);
      g', out' := g + 1, out + Taken(x', j');
    }
  }

  lemma CountBelowFour(sym: seq<nat>, g: nat, n: nat, j: int, x: nat, out: seq<Byte>)
    requires Decoding(sym, g, n, j, x, out)
    ensures n < 4
  {
  }

  // The second pass after i characters.
  ghost predicate Progress(src: seq<Byte>, i: nat, was: seq<Byte>, now: seq<Byte>, p: nat,
                           g: nat, n: nat, j: int, x: nat, out: seq<Byte>) {
    && i <= |src| && p == |out| <= |now|
    && Decoding(Symbols(src[..i]), g, n, j, x, out)
    && now[..p] == out && TailKept(was, now, p)
  }

  lemma ProgressStart(src: seq<Byte>, now: seq<Byte>)
    ensures Progress(src, 0, now, now, 0, 0, 0, 3, 0, [])
  {
    assert src[..0] == [] && now[..0] == [];
    NothingTaken();
    NoSymbols();
  }

  lemma ProgressSkip(src: seq<Byte>, i: nat, was: seq<Byte>, now: seq<Byte>, p: nat, g: nat, n: nat, j: int, x: nat, out: seq<Byte>)
    requires i < |src| && Skipped(src[i]) && Progress(src, i, was, now, p, g, n, j, x, out)
    ensures Progress(src, i + 1, was, now, p, g, n, j, x, out)
  {
    hide Decoding, TailKept;
    SymbolsNext(src, i);
  }

  lemma ProgressEnd(src: seq<Byte>, was: seq<Byte>, now: seq<Byte>, p: nat, g: nat, n: nat, j: int, x: nat, out: seq<Byte>)
    requires Progress(src, |src|, was, now, p, g, n, j, x, out)
    ensures p == |Output(Symbols(src))| <= |now| && now[..p] == Output(Symbols(src)) && TailKept(was, now, p)
  {
    hide Decoding, TailKept, Output;
    assert src[..|src|] == src;
    AllTaken(Symbols(src), g, n, j, x, out);
  }

  method DecodeCharacter(dst: array<Byte>, src: seq<Byte>, i: nat, p: nat, n: nat, j: int, x: nat,
                         ghost was: seq<Byte>, ghost g: nat, ghost out: seq<Byte>)
    returns (p': nat, n': nat, j': int, x': nat, ghost g': nat, ghost out': seq<Byte>)
    requires i < |src| && |Output(Symbols(src))| <= dst.Length
    requires Progress(src, i, was, dst[..], p, g, n, j, x, out)
    modifies dst
    ensures Progress(src, i + 1, was, dst[..], p', g', n', j', x', out')
  {
    hide Decoding, TailKept, Output, Unmap;
    if src[i] == CR || src[i] == LF || src[i] == SPACE {
      ProgressSkip(src, i, was, dst[..], p, g, n, j, x, out);
      return p, n, j, x, g, out;
    }
    ghost var before := dst[..];
    p', n', j', x', g', out' := TakeSymbol(dst, p, Unmap(src[i]), n, j, x, src, i, g, out);
    TailKeptNext(was, before, dst[..], p, p');
  }

  method DecodeAll(dst: array<Byte>, src: seq<Byte>) returns (p: nat)
    requires |Output(Symbols(src))| <= dst.Length
    modifies dst
    ensures p == |Output(Symbols(src))| && dst[..p] == Output(Symbols(src)) && TailKept(old(dst[..]), dst[..], p)
  {
    hide *;
    var n: nat, j: int, x: nat := 0, 3, 0;
    ghost var g: nat, out: seq<Byte> := 0, [];
    p := 0;
    ghost var was := dst[..];
    ProgressStart(src, was);
    for i := 0 to |src|
      invariant Progress(src, i, was, dst[..], p, g, n, j, x, out)
    {
      p, n, j, x, g, out := DecodeCharacter(dst, src, i, p, n, j, x, was, g, out);
    }
    ProgressEnd(src, was, dst[..], p, g, n, j, x, out);
  }

  lemma NoSymbols()
    ensures Symbols([]) == []
  {
  }

  lemma GroupFits(src: seq<Byte>, i: nat, g: nat, j: int, x: nat, out: seq<Byte>)
    requires i <= |src| && Decoding(Symbols(src[..i]), g, 0, j, x, out)
    ensures |out| <= |Output(Symbols(src))|
  {
    OutputGrows(src, i, g);
  }

  // Both passes.  Nothing is written past what the first pass has counted.
  method Decode(dst: array<Byte>, src: seq<Byte>) returns (r: Result, olen: nat)
    modifies dst
    ensures r == InvalidCharacter <==> !Accepted(src)
    ensures r == TooSmall <==> Accepted(src) && Symbols(src) != [] && dst.Length < Estimate(|Symbols(src)|, Pads(Symbols(src)))
    ensures r == TooSmall ==> olen == Estimate(|Symbols(src)|, Pads(Symbols(src)))
    ensures r != Ok ==> dst[..] == old(dst[..])
    ensures r == Ok ==>
              && olen == |Output(Symbols(src))| <= dst.Length
              && dst[..olen] == Output(Symbols(src)) && TailKept(old(dst[..]), dst[..], olen)
  {
    hide *;
    var valid, n, j := Check(src);
    if !valid {
      return InvalidCharacter, 0;
    }
    AcceptedPads(src);
    if n == 0 {
      assert Output([]) == [] by {
        NoOutput();
      }
      TailUntouched(dst[..], 0);
      return Ok, 0;
    }
    EstimateIsEnough(Symbols(src));
    var size := EstimatedSize(n, j);
    if dst.Length < size {
      return TooSmall, size;
    }
    olen := DecodeAll(dst, src);
    r := Ok;
  }

  method EstimatedSize(n: nat, j: nat) returns (size: nat)
    requires Estimate(n, j) >= 0
    ensures size == Estimate(n, j)
  {
    size := 6 * (n / 8) + (6 * (n % 8) + 7) / 8;
    size := size - j;
  }

  lemma AcceptedPads(src: seq<Byte>)
    requires Accepted(src)
    ensures PadsLast(Symbols(src)) && Pads(Symbols(src)) <= 2
  {
  }

  lemma NoOutput()
    ensures Output([]) == []
  {
  }

  // ---------------------------------------------------------------- round trip

  // The symbols of three bytes.
  function Four(a: Byte, b: Byte, c: Byte): (r: seq<nat>)
    ensures |r| == 4
  {
    [a / 4, a % 4 * 16 + b / 16, b % 16 * 4 + c / 64, c % 64]
  }

  // The symbols that bytes are encoded as.
  function EncodedSymbols(s: seq<Byte>): (r: seq<nat>)
    ensures |r| == 4 * ((|s| + 2) / 3)
  {
    if s == [] then []
    else if |s| == 1 then [s[0] / 4, s[0] % 4 * 16, PADDING, PADDING]
    else if |s| == 2 then [s[0] / 4, s[0] % 4 * 16 + s[1] / 16, s[1] % 16 * 4, PADDING]
    else Four(s[0], s[1], s[2]) + EncodedSymbols(s[3..])
  }

  lemma UnmapQuad(a: Byte, b: Byte, c: Byte)
    ensures var q := Quad(a, b, c);
            && Unmap(q[0]) == a / 4 && Unmap(q[1]) == a % 4 * 16 + b / 16
            && Unmap(q[2]) == b % 16 * 4 + c / 64 && Unmap(q[3]) == c % 64
            && forall k :: 0 <= k < 4 ==> !Skipped(q[k])
  {
    UnmapMap(a / 4);
    UnmapMap(a % 4 * 16 + b / 16);
    UnmapMap(b % 16 * 4 + c / 64);
    UnmapMap(c % 64);
    hide Map, Unmap;
  }

  ghost predicate Plain(t: seq<Byte>, sym: seq<nat>) {
    |t| == |sym| && forall k :: 0 <= k < |t| ==> !Skipped(t[k]) && Unmap(t[k]) == sym[k] <= PADDING
  }

  lemma PlainJoin(t: seq<Byte>, sym: seq<nat>, t': seq<Byte>, sym': seq<nat>)
    requires Plain(t, sym) && Plain(t', sym')
    ensures Plain(t + t', sym + sym')
  {
    hide Skipped, Unmap;
  }

  lemma {:induction false} EncodedIsPlain(s: seq<Byte>)
    ensures Plain(Encoded(s), EncodedSymbols(s))
  {
    if |s| == 1 {
      UnmapQuad(s[0], 0, 0);
    } else if |s| == 2 {
      UnmapQuad(s[0], s[1], 0);
    } else if |s| >= 3 {
      UnmapQuad(s[0], s[1], s[2]);
      EncodedIsPlain(s[3..]);
      var four := Four(s[0], s[1], s[2]);
      hide Unmap, Quad;
      assert Plain(Quad(s[0], s[1], s[2]), four);
      PlainJoin(Quad(s[0], s[1], s[2]), four, Encoded(s[3..]), EncodedSymbols(s[3..]));
    }
  }

  lemma {:induction false} SymbolsOfPlain(t: seq<Byte>, sym: seq<nat>)
    requires Plain(t, sym)
    ensures Symbols(t) == sym
  {
    if t != [] {
      SymbolsOfPlain(t[..|t| - 1], sym[..|t| - 1]);
      assert sym == sym[..|t| - 1] + [sym[|t| - 1]];
    }
  }

  lemma {:induction false} PadsJoin(a: seq<nat>, b: seq<nat>)
    ensures Pads(a + b) == Pads(a) + Pads(b)
  {
    if b == [] {
      assert a + b == a;
    } else {
      PadsJoin(a, b[..|b| - 1]);
      assert (a + b)[..|a + b| - 1] == a + b[..|b| - 1];
    }
  }

  lemma GroupsStep(sym: seq<nat>, g: nat)
    requires 0 < g && 4 * g <= |sym|
    ensures Groups(sym, g) == Groups(sym, g - 1) + Leading(Word(sym[4 * g - 4..4 * g]), 3 - Pads(sym[..4 * g]))
    ensures Groups(sym, 0) == []
  {
  }

  // A group without padding in front of others comes out first.
  lemma {:induction false} GroupsAfter(q: seq<nat>, rest: seq<nat>, g: nat)
    requires |q| == 4 && Pads(q) == 0 && 4 * g <= |rest|
    ensures Groups(q + rest, g + 1) == Leading(Word(q), 3) + Groups(rest, g)
  {
    hide Word, Leading, Groups, Pads;
    var all := q + rest;
    GroupsStep(all, g + 1);
    assert all[..4 * g + 4] == q + rest[..4 * g];
    PadsJoin(q, rest[..4 * g]);
    if g == 0 {
      assert all[0..4] == q && rest[..0] == [];
      NoPads([]);
      NoGroups(rest);
    } else {
      GroupsStep(rest, g);
      GroupsAfter(q, rest, g - 1);
      assert all[4 * g..4 * g + 4] == rest[4 * g - 4..4 * g];
    }
  }

  lemma NoGroups(sym: seq<nat>)
    ensures Groups(sym, 0) == []
  {
  }

  lemma WordOfParts(p: nat, q: nat, r: nat, t: nat, u: nat, v: nat)
    requires p < 64 && q < 4 && r < 16 && t < 16 && u < 4 && v < 64
    ensures Word([p, q * 16 + r, t * 4 + u, v]) == (4 * p + q) * 65536 + (16 * r + t) * 256 + (64 * u + v)
  {
    assert p % 64 == p && (q * 16 + r) % 64 == q * 16 + r && (t * 4 + u) % 64 == t * 4 + u && v % 64 == v;
  }

  lemma WordOfThree(a: Byte, b: Byte, c: Byte)
    ensures Word(Four(a, b, c)) == a * 65536 + b * 256 + c
  {
    hide Word;
    WordOfParts(a / 4, a % 4, b / 16, b % 16, c / 64, c % 64);
    assert a == 4 * (a / 4) + a % 4 && b == 16 * (b / 16) + b % 16 && c == 64 * (c / 64) + c % 64;
  }

  lemma BytesOfWord(a: Byte, b: Byte, c: Byte)
    ensures var w := a * 65536 + b * 256 + c; ByteOf(w, 0) == a && ByteOf(w, 1) == b && ByteOf(w, 2) == c
  {
    var w := a * 65536 + b * 256 + c;
    DivModUnique(w, 65536, a, b * 256 + c);
    DivModUnique(w, 256, a * 256 + b, c);
    DivModUnique(a * 256 + b, 256, a, b);
  }

  lemma LeadingThree(a: Byte, b: Byte, c: Byte)
    ensures var w := a * 65536 + b * 256 + c;
            Leading(w, 3) == [a, b, c] && Leading(w, 2) == [a, b] && Leading(w, 1) == [a]
  {
    BytesOfWord(a, b, c);
    hide ByteOf;
  }

  lemma FourPads(u: nat, v: nat, w: nat, x: nat)
    requires u < 64 && v < 64
    ensures Pads([u, v, w, x]) == (if w == PADDING then 1 else 0) + (if x == PADDING then 1 else 0)
  {
    var q := [u, v, w, x];
    assert q[..3] == [u, v, w] && q[..3][..2] == [u, v] && q[..3][..2][..1] == [u] && q[..3][..2][..1][..0] == [];
    assert Pads([u]) == 0 && Pads([u, v]) == 0;
    assert Pads([u, v, w]) == if w == PADDING then 1 else 0;
  }

  // The last group, of one byte or of two.
  lemma LastBytes(s: seq<Byte>)
    requires 0 < |s| < 3
    ensures var q := EncodedSymbols(s); |q| == 4 && Pads(q) == 3 - |s| && Groups(q, 1) == s
  {
    var q := EncodedSymbols(s);
    var b := if |s| == 2 then s[1] else 0;
    FourPads(q[0], q[1], q[2], q[3]);
    LeadingThree(s[0], b, 0);
    WordOfThree(s[0], b, 0);
    assert Word(q) == Word(Four(s[0], b, 0));
    assert q[0..4] == q && q[..4] == q;
    hide Word, Leading, Pads;
    assert Groups(q, 0) == [];
  }

  lemma {:induction false} GroupsOfEncoded(s: seq<Byte>)
    ensures Groups(EncodedSymbols(s), (|s| + 2) / 3) == s
    ensures Pads(EncodedSymbols(s)) <= 2
  {
    hide Word, Leading, Pads, Groups;
    if s == [] {
      NoGroups([]);
      NoPads([]);
    } else if |s| < 3 {
      LastBytes(s);
    } else {
      GroupsOfEncoded(s[3..]);
      FirstGroupOfEncoded(s);
    }
  }

  // A whole group has no padding and stands for its bytes.
  lemma FourFacts(a: Byte, b: Byte, c: Byte)
    ensures Pads(Four(a, b, c)) == 0 && Leading(Word(Four(a, b, c)), 3) == [a, b, c]
    ensures forall k :: 0 <= k < 4 ==> Four(a, b, c)[k] < PADDING
  {
    WordOfThree(a, b, c);
    LeadingThree(a, b, c);
    NoPads(Four(a, b, c));
    hide Word, Leading, Pads;
  }

  lemma EncodedSymbolsStep(s: seq<Byte>)
    requires |s| >= 3
    ensures EncodedSymbols(s) == Four(s[0], s[1], s[2]) + EncodedSymbols(s[3..])
    ensures (|s| + 2) / 3 == (|s| - 1) / 3 + 1 && 4 * ((|s| - 1) / 3) <= |EncodedSymbols(s[3..])|
  {
  }

  lemma FirstGroupOfEncoded(s: seq<Byte>)
    requires |s| >= 3 && 4 * ((|s| - 1) / 3) <= |EncodedSymbols(s[3..])|
    requires Groups(EncodedSymbols(s[3..]), (|s| - 1) / 3) == s[3..]
    ensures Groups(EncodedSymbols(s), (|s| + 2) / 3) == s
    ensures Pads(EncodedSymbols(s)) == Pads(EncodedSymbols(s[3..]))
  {
    hide *;
    var q, rest := Four(s[0], s[1], s[2]), EncodedSymbols(s[3..]);
    EncodedSymbolsStep(s);
    FourFacts(s[0], s[1], s[2]);
    GroupsAfter(q, rest, (|s| - 1) / 3);
    PadsJoin(q, rest);
    assert s == [s[0], s[1], s[2]] + s[3..];
  }

  lemma {:induction false} EncodedPadsLast(s: seq<Byte>)
    ensures PadsLast(EncodedSymbols(s))
  {
    if |s| >= 3 {
      EncodedPadsLast(s[3..]);
      FourFacts(s[0], s[1], s[2]);
      NoPadsAhead(Four(s[0], s[1], s[2]), EncodedSymbols(s[3..]));
    }
  }

  lemma NoPadsAhead(q: seq<nat>, rest: seq<nat>)
    requires PadsLast(rest) && forall k :: 0 <= k < |q| ==> q[k] != PADDING
    ensures PadsLast(q + rest)
  {
  }

  // Decoding accepts what the encoder writes and gives the bytes back, whatever they are.
  lemma DecodedEncoded(s: seq<Byte>)
    ensures Accepted(Encoded(s)) && Output(Symbols(Encoded(s))) == s
  {
    var t, sym := Encoded(s), EncodedSymbols(s);
    EncodedIsPlain(s);
    SymbolsOfPlain(t, sym);
    GroupsOfEncoded(s);
    EncodedPadsLast(s);
    forall k | 0 <= k < |t| ensures GoodAt(t, k) {
      assert !Skipped(t[k]) && Unmap(t[k]) <= PADDING;
    }
    hide Encoded, EncodedSymbols, Symbols, Groups, Pads, PadsLast, GoodAt, Plain;
    assert |sym| / 4 == (|s| + 2) / 3;
  }

  // ---------------------------------------------------------------- lines, read from the left

  // In a line, in the spaces that end one, or after a carriage return.
  datatype Place = InLine | InSpaces | AfterReturn

  // Characters of the alphabet and padding make lines; spaces may end a line, a line feed or both
  // characters of a line end do; and the text may end anywhere but between these.
  predicate Reads(src: seq<Byte>, place: Place)
    decreases |src|
  {
    if src == [] then place != AfterReturn
    else if place == AfterReturn then src[0] == LF && Reads(src[1..], InLine)
    else if src[0] == SPACE then Reads(src[1..], InSpaces)
    else if src[0] == LF then Reads(src[1..], InLine)
    else if src[0] == CR then Reads(src[1..], AfterReturn)
    else place == InLine && Unmap(src[0]) <= PADDING && Reads(src[1..], InLine)
  }

  lemma {:induction false} EndsLineLater(src: seq<Byte>, k: nat)
    requires 0 < k <= |src|
    ensures EndsLine(src, k) <==> EndsLine(src[1..], k - 1)
    decreases |src| - k
  {
    if k < |src| {
      EndsLineLater(src, k + 1);
    }
  }

  ghost predicate AllGood(src: seq<Byte>) {
    forall k :: 0 <= k < |src| ==> GoodAt(src, k)
  }

  lemma GoodFromSecond(src: seq<Byte>)
    requires src != []
    ensures AllGood(src) <==> GoodAt(src, 0) && AllGood(src[1..])
  {
    forall k | 0 < k < |src| ensures GoodAt(src, k) <==> GoodAt(src[1..], k - 1) {
      if k + 1 <= |src| {
        EndsLineLater(src, k + 1);
      }
    }
    hide GoodAt;
    if GoodAt(src, 0) && AllGood(src[1..]) {
      forall k | 0 <= k < |src| ensures GoodAt(src, k) {
        if k > 0 {
          assert GoodAt(src[1..], k - 1);
        }
      }
    }
    if AllGood(src) {
      forall k | 0 <= k < |src| - 1 ensures GoodAt(src[1..], k) {
        assert GoodAt(src, k + 1);
      }
    }
  }

  // Good at every place is what a reader from the left accepts.
  lemma {:induction false} GoodIsRead(src: seq<Byte>)
    ensures Reads(src, InLine) <==> AllGood(src)
    ensures Reads(src, InSpaces) <==> EndsLine(src, 0) && AllGood(src)
    ensures Reads(src, AfterReturn) <==> src != [] && src[0] == LF && AllGood(src)
    decreases |src|
  {
    if src != [] {
      GoodFromSecond(src);
      GoodIsRead(src[1..]);
      EndsLineLater(src, 1);
      hide AllGood;
    }
  }

  // So accepted strings are those read as lines with at most two paddings, at the end.
  lemma AcceptedIsRead(src: seq<Byte>)
    ensures Accepted(src) <==> Reads(src, InLine) && Pads(Symbols(src)) <= 2 && PadsLast(Symbols(src))
  {
    GoodIsRead(src);
  }

  // ---------------------------------------------------------------- the alphabet

  // RFC 1521, table 1.
  const CAPITALS: string := "ABCDEFGHIJKLMNOPQRSTUVWXYZ"
  const LETTERS: string := "abcdefghijklmnopqrstuvwxyz"
  const ALPHABET: string := CAPITALS + LETTERS + "0123456789" + "+/"

  lemma CapitalAt(i: nat)
    requires i < 26
    ensures |CAPITALS| == 26 && CAPITALS[i] as nat == 65 + i
  {
  }

  lemma LetterAt(i: nat)
    requires i < 26
    ensures |LETTERS| == 26 && LETTERS[i] as nat == 97 + i
  {
  }

  lemma MapIsLetter(i: nat)
    requires i < 64
    ensures |ALPHABET| == 64 && Map(i) == ALPHABET[i] as nat
  {
    CapitalAt(if i < 26 then i else 0);
    LetterAt(if 26 <= i < 52 then i - 26 else 0);
    assert |ALPHABET| == 64;
  }

  // The six bits of a word of 24 that the k-th of four characters stands for.
  function SixBits(w: nat, k: nat): nat
    requires k < 4
  {
    if k == 0 then w / 0x4_0000 % 64 else if k == 1 then w / 0x1000 % 64 else if k == 2 then w / 0x40 % 64 else w % 64
  }

  // The first characters spell the highest bits of a word of 24, and padding follows.
  ghost predicate Spells(chars: seq<Byte>, w: nat, n: nat) {
    && |chars| == 4 && n <= 4
    && (forall k :: 0 <= k < n ==> chars[k] == ALPHABET[SixBits(w, k)] as nat)
    && (forall k :: n <= k < 4 ==> chars[k] == '=' as nat)
  }

  lemma QuadSpells(a: Byte, b: Byte, c: Byte)
    ensures Spells(Quad(a, b, c), a as nat * 0x1_0000 + b as nat * 0x100 + c, 4)
  {
    QuadBits(a, b, c);
    MapIsLetter(a / 4);
    MapIsLetter(a % 4 * 16 + b / 16);
    MapIsLetter(b % 16 * 4 + c / 64);
    MapIsLetter(c % 64);
    hide Map, SixBits;
  }

  lemma QuadBits(a: Byte, b: Byte, c: Byte)
    ensures var w := a as nat * 0x1_0000 + b as nat * 0x100 + c;
            && SixBits(w, 0) == a / 4 && SixBits(w, 1) == a % 4 * 16 + b / 16
            && SixBits(w, 2) == b % 16 * 4 + c / 64 && SixBits(w, 3) == c % 64
  {
    var w := a as nat * 0x1_0000 + b as nat * 0x100 + c;
    DivModUnique(w, 0x4_0000, a / 4, a % 4 * 0x1_0000 + b as nat * 0x100 + c);
    DivModUnique(w, 0x1000, a as nat * 16 + b / 16, b % 16 * 0x100 + c);
    DivModUnique(w, 0x40, a as nat * 0x400 + b as nat * 4 + c / 64, c % 64);
    DivModUnique(a as nat * 16 + b / 16, 64, a / 4, a % 4 * 16 + b / 16);
    DivModUnique(a as nat * 0x400 + b as nat * 4 + c / 64, 64, a as nat * 16 + b / 16, b % 16 * 4 + c / 64);
  }

  // Three bytes of a string as one number, with zeros for those that lack.
  function ThreeAt(s: seq<Byte>, at: nat): nat {
    ByteOrZero(s, at) as nat * 0x1_0000 + ByteOrZero(s, at + 1) as nat * 0x100 + ByteOrZero(s, at + 2)
  }

  function ByteOrZero(s: seq<Byte>, at: nat): Byte {
    if at < |s| then s[at] else 0
  }

  // Section 5.2: every three bytes are spelt by four letters of the alphabet, six bits each; one or two
  // bytes at the end by two or three, with zeros for the bits that lack, and padding.
  lemma {:induction false} EncodedSpells(s: seq<Byte>, g: nat)
    requires 3 * g < |s|
    ensures 4 * g + 4 <= |Encoded(s)|
    ensures Spells(Encoded(s)[4 * g..4 * g + 4], ThreeAt(s, 3 * g), if |s| - 3 * g > 2 then 4 else |s| - 3 * g + 1)
    decreases g
  {
    hide Map, Quad, SixBits;
    if g == 0 {
      FirstSpells(s);
    } else {
      EncodedSpells(s[3..], g - 1);
      hide Spells;
      LaterFour(s, g);
      assert ThreeAt(s[3..], 3 * (g - 1)) == ThreeAt(s, 3 * g);
    }
  }

  lemma LaterFour(s: seq<Byte>, g: nat)
    requires |s| >= 3 && g > 0 && 4 * (g - 1) + 4 <= |Encoded(s[3..])|
    ensures 4 * g + 4 <= |Encoded(s)| && Encoded(s)[4 * g..4 * g + 4] == Encoded(s[3..])[4 * (g - 1)..4 * (g - 1) + 4]
  {
    assert Encoded(s) == Quad(s[0], s[1], s[2]) + Encoded(s[3..]);
    hide Encoded, Quad;
  }

  // The first n of four characters, filled up with padding.
  function Cut(quad: seq<Byte>, n: nat): seq<Byte>
    requires |quad| == 4 && 2 <= n <= 4
  {
    if n == 4 then quad else if n == 3 then quad[..3] + [PAD] else quad[..2] + [PAD, PAD]
  }

  lemma FirstSpells(s: seq<Byte>)
    requires |s| > 0
    ensures |Encoded(s)| >= 4 && Spells(Encoded(s)[..4], ThreeAt(s, 0), if |s| > 2 then 4 else |s| + 1)
  {
    var a, b, c := ByteOrZero(s, 0), ByteOrZero(s, 1), ByteOrZero(s, 2);
    QuadSpells(a, b, c);
    FirstFour(s);
    hide Quad, Encoded, Spells, ByteOrZero, Cut;
    SpellsLess(Quad(a, b, c), ThreeAt(s, 0), if |s| > 2 then 4 else |s| + 1);
  }

  lemma FirstFour(s: seq<Byte>)
    requires |s| > 0
    ensures |Encoded(s)| >= 4
    ensures Encoded(s)[..4] == Cut(Quad(ByteOrZero(s, 0), ByteOrZero(s, 1), ByteOrZero(s, 2)), if |s| > 2 then 4 else |s| + 1)
  {
    hide Quad;
  }

  lemma SpellsLess(quad: seq<Byte>, w: nat, n: nat)
    requires Spells(quad, w, 4) && 2 <= n <= 4
    ensures Spells(Cut(quad, n), w, n)
  {
    hide SixBits;
  }
}
