// Messages encrypted on the way between host and chip.
//
// An encrypted message is four bytes of header, two bytes of length, the payload in whole blocks of
// sixteen bytes and a tag of sixteen bytes.  Numbers are little-endian, as on the host.
module SecureLink {
  import opened Numbers
  import opened Bytes
  import opened BlockCipher
  import opened Memory
  import opened Ccm
  import opened CcmStandard

  const HEADER: nat := 4
  const LENGTH: nat := 2
  const TAG: nat := 16
  const SEQUENCES: nat := 0x4000_0000

  // The word of the nonce that holds the sequence number; the other words are zero.
  const RX_WORD: nat := 1
  const TX_WORD: nat := 2

  datatype Link = Link(E: Cipher, rxSequence: nat, txSequence: nat)

  function RoundUp16(n: nat): (r: nat)
    ensures n <= r < n + 16
  {
    (n + 15) / 16 * 16
  }

  // The payload of a message whose own length, with the length field, is len.  The source's unsigned
  // arithmetic rounds the length of a message too short for its length field to zero.
  function PayloadLength(len: nat): nat {
    if len < LENGTH then 0 else RoundUp16(len - LENGTH)
  }

  function Nonce(word: nat, sequence: nat): (r: seq<Byte>)
    requires word < 3
    ensures |r| == 12
  {
    Zeros(4 * word) + LittleEndian(sequence, 4) + Zeros(4 * (2 - word))
  }

  function Header(sequence: nat, encrypted: nat): (r: seq<Byte>)
    ensures |r| == HEADER
  {
    LittleEndian(sequence % SEQUENCES + encrypted * SEQUENCES, HEADER)
  }

  // An encrypted message, as either side builds it.
  function Sealed(E: Cipher, word: nat, sequence: nat, encrypted: nat, len: nat, payload: seq<Byte>): (r: seq<Byte>)
    requires word < 3
    ensures |r| == HEADER + LENGTH + |payload| + TAG
  {
    Header(sequence, encrypted) + LittleEndian(len, LENGTH)
    + Crypt(E, Nonce(word, sequence), payload) + Tag(E, Nonce(word, sequence), [], payload, TAG)
  }

  // ---------------------------------------------------------------- what a message says of itself

  function ClearLength(m: seq<Byte>): nat
    requires |m| >= HEADER + LENGTH
  {
    FromLittleEndian(m[HEADER..HEADER + LENGTH])
  }

  function SequenceOf(m: seq<Byte>): nat
    requires |m| >= HEADER + LENGTH
  {
    FromLittleEndian(m[..HEADER]) % SEQUENCES
  }

  // The buffer holds all that the length field announces.
  predicate Complete(m: seq<Byte>) {
    |m| >= HEADER + LENGTH && |m| >= HEADER + LENGTH + PayloadLength(ClearLength(m)) + TAG
  }

  function PayloadOf(m: seq<Byte>): seq<Byte>
    requires Complete(m)
  {
    m[HEADER + LENGTH..HEADER + LENGTH + PayloadLength(ClearLength(m))]
  }

  function TagOf(m: seq<Byte>): seq<Byte>
    requires Complete(m)
  {
    var at := HEADER + LENGTH + PayloadLength(ClearLength(m));
    m[at..at + TAG]
  }

  function Opened(E: Cipher, m: seq<Byte>): seq<Byte>
    requires Complete(m)
  {
    Crypt(E, Nonce(RX_WORD, SequenceOf(m)), PayloadOf(m))
  }

  predicate Authentic(E: Cipher, m: seq<Byte>)
    requires Complete(m)
  {
    TagOf(m) == Tag(E, Nonce(RX_WORD, SequenceOf(m)), [], Opened(E, m), TAG)
  }

  // ---------------------------------------------------------------- decoding in place

  lemma {:induction false} FromLittleEndianBelow(s: seq<Byte>)
    ensures FromLittleEndian(s) < Pow(256, |s|)
  {
    if s != [] {
      FromLittleEndianBelow(s[1..]);
    }
  }

  lemma PayloadFits(m: seq<Byte>, iv: seq<Byte>)
    requires |m| >= HEADER + LENGTH && |iv| == 12
    ensures ValidInput(PayloadLength(ClearLength(m)), iv, [], TAG)
  {
    FromLittleEndianBelow(m[HEADER..HEADER + LENGTH]);
    assert Pow(256, 2) == 0x1_0000 && Pow(256, 3) == 0x100_0000;
  }

  // The clear message is written over the encrypted one, four bytes ahead of where it is read.
  method Decode(link: Link, m: array<Byte>) returns (r: Result, link': Link)
    requires Complete(m[..])
    modifies m
    ensures link' == link.(rxSequence := SequenceOf(old(m[..])) + 1)
    ensures r != BadInput
    ensures r == Ok || r == AuthFailed ==> (r == Ok <==> Authentic(link.E, old(m[..])))
    ensures r == Ok ==> m[..][..LENGTH] == old(m[..])[HEADER..HEADER + LENGTH]
    ensures r == Ok ==> m[..][LENGTH..LENGTH + PayloadLength(ClearLength(old(m[..])))] == Opened(link.E, old(m[..]))
  {
    ghost var was := m[..];
    var len := FromLittleEndian(m[HEADER..HEADER + LENGTH]);
    assert m[HEADER..HEADER + LENGTH] == was[HEADER..HEADER + LENGTH];
    var size := PayloadLength(len);
    var sequence := FromLittleEndian(m[..HEADER]) % SEQUENCES;
    assert m[..HEADER] == was[..HEADER];
    var nonce := Nonce(RX_WORD, sequence);
    link' := link.(rxSequence := sequence + 1);
    m[0], m[1] := m[HEADER], m[HEADER + 1];
    PayloadFits(was, nonce);
    ghost var copied := m[..];
    assert copied[HEADER + LENGTH..] == was[HEADER + LENGTH..];
    Unmoved(was, copied, size);
    Elsewhere(copied, LENGTH, Opened(link.E, was), HEADER + LENGTH + size, TAG);
    r := AuthDecrypt(link.E, m, LENGTH, HEADER + LENGTH, size, nonce, [], HEADER + LENGTH + size, TAG);
    if r == Ok {
      var text := Opened(link.E, was);
      assert m[..] == Replaced(copied, LENGTH, text);
      assert m[..][..LENGTH] == copied[..LENGTH];
      assert m[..][LENGTH..LENGTH + size] == text;
    }
  }

  lemma Unmoved(was: seq<Byte>, now: seq<Byte>, size: nat)
    requires |now| == |was| >= HEADER + LENGTH + size + TAG && now[HEADER + LENGTH..] == was[HEADER + LENGTH..]
    ensures now[HEADER + LENGTH..HEADER + LENGTH + size] == was[HEADER + LENGTH..HEADER + LENGTH + size]
    ensures now[HEADER + LENGTH + size..HEADER + LENGTH + size + TAG] == was[HEADER + LENGTH + size..HEADER + LENGTH + size + TAG]
  {
    var a, b := now[HEADER + LENGTH..], was[HEADER + LENGTH..];
    assert now[HEADER + LENGTH..HEADER + LENGTH + size] == a[..size];
    assert was[HEADER + LENGTH..HEADER + LENGTH + size] == b[..size];
    assert now[HEADER + LENGTH + size..HEADER + LENGTH + size + TAG] == a[size..size + TAG];
    assert was[HEADER + LENGTH + size..HEADER + LENGTH + size + TAG] == b[size..size + TAG];
  }

  // ---------------------------------------------------------------- round trip

  lemma SealedParts(E: Cipher, word: nat, sequence: nat, encrypted: nat, len: nat, payload: seq<Byte>, m: seq<Byte>)
    requires word < 3 && Sealed(E, word, sequence, encrypted, len, payload) <= m
    ensures |m| >= HEADER + LENGTH + |payload| + TAG
    ensures m[..HEADER] == Header(sequence, encrypted)
    ensures m[HEADER..HEADER + LENGTH] == LittleEndian(len, LENGTH)
    ensures m[HEADER + LENGTH..HEADER + LENGTH + |payload|] == Crypt(E, Nonce(word, sequence), payload)
    ensures m[HEADER + LENGTH + |payload|..HEADER + LENGTH + |payload| + TAG] == Tag(E, Nonce(word, sequence), [], payload, TAG)
  {
    hide Header, Crypt, Tag, Nonce, LittleEndian;
    var s := Sealed(E, word, sequence, encrypted, len, payload);
    assert s == m[..|s|];
    var a, b, c := HEADER, HEADER + LENGTH, HEADER + LENGTH + |payload|;
    assert m[..a] == s[..a] && m[a..b] == s[a..b] && m[b..c] == s[b..c] && m[c..c + TAG] == s[c..c + TAG];
  }

  lemma HeaderRead(sequence: nat, encrypted: nat)
    requires sequence < SEQUENCES && encrypted < 4
    ensures FromLittleEndian(Header(sequence, encrypted)) % SEQUENCES == sequence
  {
    HeaderSays(sequence, encrypted);
    DivModUnique(sequence, SEQUENCES, 0, sequence);
  }

  lemma WordSize()
    ensures Pow(256, HEADER) == 4 * SEQUENCES
  {
    assert Pow(256, 2) == 0x1_0000;
  }

  // A message that the other side sealed with the decoder's nonce is accepted and restored.
  lemma SealedIsOpened(E: Cipher, sequence: nat, encrypted: nat, len: nat, payload: seq<Byte>, m: seq<Byte>)
    requires sequence < SEQUENCES && encrypted < 4 && len < 0x1_0000 && |payload| == PayloadLength(len)
    requires Sealed(E, RX_WORD, sequence, encrypted, len, payload) <= m
    ensures Complete(m) && ClearLength(m) == len && SequenceOf(m) == sequence
    ensures Authentic(E, m) && Opened(E, m) == payload
  {
    hide Header, Crypt, Tag, Nonce, LittleEndian, FromLittleEndian, PayloadLength, Sealed, Pow;
    SealedParts(E, RX_WORD, sequence, encrypted, len, payload, m);
    LengthRead(len);
    HeaderRead(sequence, encrypted);
    CryptTwice(E, Nonce(RX_WORD, sequence), payload);
  }

  lemma LengthRead(len: nat)
    requires len < 0x1_0000
    ensures FromLittleEndian(LittleEndian(len, LENGTH)) == len
  {
    assert Pow(256, 2) == 0x1_0000;
    LittleEndianRead(len, LENGTH);
  }

  // ---------------------------------------------------------------- encoding

  lemma SealedPieceByPiece(was: seq<Byte>, at: nat, head: seq<Byte>, text: seq<Byte>, tag: seq<Byte>)
    requires at + |head| + |text| + |tag| <= |was|
    ensures |Replaced(was, at, head)| == |was| && |Replaced(Replaced(was, at, head), at + |head|, text)| == |was|
    ensures Replaced(Replaced(Replaced(was, at, head), at + |head|, text), at + |head| + |text|, tag)
         == Replaced(was, at, head + text + tag)
  {
    ReplacedNext(was, at, head, text);
    ReplacedNext(was, at, head + text, tag);
  }

  // The message at some place in memory is as long as it says, its payload filled up to whole blocks.
  predicate Held(mem: seq<Byte>, input: nat) {
    && input + LENGTH <= |mem|
    && input + LENGTH + PayloadLength(FromLittleEndian(mem[input..input + LENGTH])) <= |mem|
  }

  // Header, encrypted payload and tag are written one after the other.
  method SealAt(E: Cipher, mem: array<Byte>, output: nat, head: seq<Byte>, src: nat, size: nat, nonce: seq<Byte>)
    returns (r: Result)
    requires ValidInput(size, nonce, [], TAG)
    requires src + size <= mem.Length && output + |head| + size + TAG <= mem.Length
    requires src + size <= output || output + |head| + size + TAG <= src
    modifies mem
    ensures r == Ok || r == CipherFailed
    ensures r == Ok ==>
              var payload := old(mem[..])[src..src + size];
              mem[..] == Replaced(old(mem[..]), output, head + Crypt(E, nonce, payload) + Tag(E, nonce, [], payload, TAG))
  {
    ghost var was := mem[..];
    PutBytes(mem, output, head);
    Elsewhere(was, output, head, src, size);
    r := SealBody(E, mem, output + |head|, src, size, nonce, was, output, head, was[src..src + size]);
  }

  method SealBody(E: Cipher, mem: array<Byte>, at: nat, src: nat, size: nat, nonce: seq<Byte>,
                  ghost was: seq<Byte>, ghost output: nat, ghost head: seq<Byte>, ghost payload: seq<Byte>)
    returns (r: Result)
    requires ValidInput(size, nonce, [], TAG)
    requires src + size <= mem.Length == |was| && at == output + |head| && at + size + TAG <= |was|
    requires at <= src || src + size <= at
    requires mem[..] == Replaced(was, output, head) && mem[..][src..src + size] == payload
    modifies mem
    ensures r == Ok || r == CipherFailed
    ensures r == Ok ==>
              mem[..] == Replaced(was, output, head + Crypt(E, nonce, payload) + Tag(E, nonce, [], payload, TAG))
  {
    NonceFits(size, nonce);
    hide *;
    r := EncryptAndTag(E, mem, at, src, size, nonce, [], at + size, TAG);
    if r == Ok {
      SealedTogether(E, was, output, head, payload, nonce, mem[..]);
    }
  }

  lemma NonceFits(size: nat, nonce: seq<Byte>)
    requires ValidInput(size, nonce, [], TAG)
    ensures 7 <= |nonce| <= 13 && ValidTag(TAG)
  {
  }

  lemma SealedTogether(E: Cipher, was: seq<Byte>, output: nat, head: seq<Byte>, payload: seq<Byte>, nonce: seq<Byte>,
                       now: seq<Byte>)
    requires 7 <= |nonce| <= 13 && ValidTag(TAG) && output + |head| + |payload| + TAG <= |was|
    requires |Replaced(was, output, head)| == |was|
    requires |Replaced(Replaced(was, output, head), output + |head|, Crypt(E, nonce, payload))| == |was|
    requires now == Replaced(Replaced(Replaced(was, output, head), output + |head|, Crypt(E, nonce, payload)),
                             output + |head| + |payload|, Tag(E, nonce, [], payload, TAG))
    ensures now == Replaced(was, output, head + Crypt(E, nonce, payload) + Tag(E, nonce, [], payload, TAG))
  {
    hide *;
    SealedPieceByPiece(was, output, head, Crypt(E, nonce, payload), Tag(E, nonce, [], payload, TAG));
  }

  // The clear message lies at input and the encrypted one is built at output, elsewhere in memory.
  method Encode(link: Link, mem: array<Byte>, input: nat, output: nat) returns (r: Result, link': Link)
    requires link.txSequence < 0x1_0000_0000
    requires Held(mem[..], input)
    requires var size := PayloadLength(FromLittleEndian(mem[..][input..input + LENGTH]));
             && output + HEADER + LENGTH + size + TAG <= mem.Length
             && (input + LENGTH + size <= output || output + HEADER + LENGTH + size + TAG <= input)
    modifies mem
    ensures link' == link.(txSequence := (link.txSequence + 1) % 0x1_0000_0000)
    ensures r == Ok || r == CipherFailed
    ensures r == Ok ==>
              var len := FromLittleEndian(old(mem[..])[input..input + LENGTH]);
              var payload := old(mem[..])[input + LENGTH..input + LENGTH + PayloadLength(len)];
              && output + HEADER + LENGTH + |payload| + TAG <= mem.Length
              && mem[..] == Replaced(old(mem[..]), output, Sealed(link.E, TX_WORD, link.txSequence, 1, len, payload))
  {
    hide FromLittleEndian, LittleEndian, PayloadLength, Nonce, Header, Replaced, Tag, Crypt, ValidInput;
    ghost var was := mem[..];
    var len := FromLittleEndian(mem[..][input..input + LENGTH]);
    var size := PayloadLength(len);
    SizeFits(was, input, Nonce(TX_WORD, link.txSequence));
    var head := Header(link.txSequence, 1) + LittleEndian(len, LENGTH);
    r := SealAt(link.E, mem, output, head, input + LENGTH, size, Nonce(TX_WORD, link.txSequence));
    link' := link.(txSequence := (link.txSequence + 1) % 0x1_0000_0000);
  }

  lemma SizeFits(mem: seq<Byte>, input: nat, iv: seq<Byte>)
    requires Held(mem, input) && |iv| == 12
    ensures ValidInput(PayloadLength(FromLittleEndian(mem[input..input + LENGTH])), iv, [], TAG)
  {
    FromLittleEndianBelow(mem[input..input + LENGTH]);
    assert Pow(256, 2) == 0x1_0000 && Pow(256, 3) == 0x100_0000;
  }

  // ---------------------------------------------------------------- the two directions

  // The three words of a nonce, read back: all but one are zero.
  lemma NonceSays(word: nat, sequence: nat, w: nat)
    requires word < 3 && w < 3 && sequence < 0x1_0000_0000
    ensures FromLittleEndian(Nonce(word, sequence)[4 * w..4 * w + 4]) == if w == word then sequence else 0
  {
    var n := Nonce(word, sequence);
    NonceWord(word, sequence, w);
    if w == word {
      WordSize();
      LittleEndianRead(sequence, 4);
    } else {
      ZerosRead(4);
    }
  }

  lemma NonceWord(word: nat, sequence: nat, w: nat)
    requires word < 3 && w < 3
    ensures Nonce(word, sequence)[4 * w..4 * w + 4] == if w == word then LittleEndian(sequence, 4) else Zeros(4)
  {
    hide LittleEndian;
  }

  lemma {:induction false} ZerosRead(n: nat)
    ensures FromLittleEndian(Zeros(n)) == 0
  {
    if n > 0 {
      assert Zeros(n)[1..] == Zeros(n - 1);
      ZerosRead(n - 1);
    }
  }

  // The host has its number in the third word of the nonce and takes the chip's from the second, so
  // the directions share a nonce only for the numbers zero.
  lemma DirectionsApart(sent: nat, received: nat)
    requires sent < 0x1_0000_0000 && received < 0x1_0000_0000
    ensures FromLittleEndian(Nonce(TX_WORD, sent)[8..12]) == sent && FromLittleEndian(Nonce(RX_WORD, received)[4..8]) == received
    ensures Nonce(TX_WORD, sent) == Nonce(RX_WORD, received) <==> sent == 0 && received == 0
  {
    hide Nonce;
    NonceSays(TX_WORD, sent, 1);
    NonceSays(TX_WORD, sent, 2);
    NonceSays(RX_WORD, received, 1);
    NonceSays(RX_WORD, received, 2);
    if sent == 0 && received == 0 {
      NonceOfZero(TX_WORD);
      NonceOfZero(RX_WORD);
    }
  }

  lemma NonceOfZero(word: nat)
    requires word < 3
    ensures Nonce(word, 0) == Zeros(12)
  {
    ZeroWord();
  }

  // Two messages sent under one key have different nonces as long as their numbers differ.
  lemma NoncesDiffer(word: nat, a: nat, b: nat)
    requires word < 3 && a < 0x1_0000_0000 && b < 0x1_0000_0000 && a != b
    ensures Nonce(word, a) != Nonce(word, b)
  {
    hide Nonce;
    NonceSays(word, a, word);
    NonceSays(word, b, word);
  }

  // The header has thirty bits of the number and two of the kind of encryption.
  lemma HeaderSays(sequence: nat, encrypted: nat)
    requires encrypted < 4
    ensures var h := FromLittleEndian(Header(sequence, encrypted));
            h % 0x4000_0000 == sequence % 0x4000_0000 && h / 0x4000_0000 == encrypted
  {
    var low := sequence % SEQUENCES;
    WordSize();
    hide LittleEndian, FromLittleEndian, Pow;
    LittleEndianRead(low + encrypted * SEQUENCES, HEADER);
    DivModUnique(low + encrypted * SEQUENCES, SEQUENCES, encrypted, low);
  }

  // ---------------------------------------------------------------- messages, byte by byte

  // The nonce of twelve bytes that has a number in one word and zeros in the others.
  ghost predicate IsNonce(n: seq<Byte>, word: nat, sequence: nat) {
    |n| == 12 && word < 3 && forall w: nat :: w < 3 ==> FromLittleEndian(n[4 * w..4 * w + 4]) == if w == word then sequence else 0
  }

  lemma NonceIsNonce(n: seq<Byte>, word: nat, sequence: nat)
    requires IsNonce(n, word, sequence)
    ensures n == Nonce(word, sequence)
  {
    var made := Nonce(word, sequence);
    forall w: nat | w < 3 ensures n[4 * w..4 * w + 4] == made[4 * w..4 * w + 4] {
      LittleEndianOf(n[4 * w..4 * w + 4]);
      NonceWord(word, sequence, w);
      ZeroWord();
    }
    hide Nonce;
    ThreeWords(n);
    ThreeWords(made);
  }

  lemma ZeroWord()
    ensures LittleEndian(0, 4) == Zeros(4)
  {
    assert LittleEndian(0, 2) == [0] + LittleEndian(0, 1);
    assert LittleEndian(0, 3) == [0] + LittleEndian(0, 2);
    assert LittleEndian(0, 4) == [0] + LittleEndian(0, 3);
  }

  lemma ThreeWords(n: seq<Byte>)
    requires |n| == 12
    ensures n == n[4 * 0..4 * 0 + 4] + n[4 * 1..4 * 1 + 4] + n[4 * 2..4 * 2 + 4]
  {
  }

  // What is sealed says how it is encrypted, its number and its length, and each byte of the payload is
  // there, masked with a byte of an enciphered counter block.
  lemma SealedText(E: Cipher, word: nat, sequence: nat, encrypted: nat, len: nat, payload: seq<Byte>,
                   nonce: seq<Byte>, k: nat, ctr: Block)
    requires encrypted < 4 && len < 0x1_0000 && |payload| < 0x100_0000 && IsNonce(nonce, word, sequence)
    requires k < |payload| && IsCounter(ctr, nonce, k / 16 + 1)
    ensures var m := Sealed(E, word, sequence, encrypted, len, payload);
            && FromLittleEndian(m[..4]) % 0x4000_0000 == sequence % 0x4000_0000 && FromLittleEndian(m[..4]) / 0x4000_0000 == encrypted
            && FromLittleEndian(m[4..6]) == len
            && Xor(m[6 + k], payload[k]) == Apply(E, ctr)[k % 16]
  {
    NonceIsNonce(nonce, word, sequence);
    ThreeBytes();
    TextIsMasked(E, nonce, payload, k, ctr);
    HeaderSays(sequence, encrypted);
    LengthRead(len);
    hide Header, Crypt, Tag, Nonce, LittleEndian, FromLittleEndian, Pow, Apply, Xor;
    SealedParts(E, word, sequence, encrypted, len, payload, Sealed(E, word, sequence, encrypted, len, payload));
    var m, c := Sealed(E, word, sequence, encrypted, len, payload), Crypt(E, nonce, payload);
    assert m[6 + k] == m[6..6 + |payload|][k] == c[k];
  }

  lemma ThreeBytes()
    ensures Pow(256, 3) == 0x100_0000
  {
    assert Pow(256, 2) == 0x1_0000;
  }

  // Its last sixteen bytes are the MAC of the payload, with nothing authenticated beside it, masked
  // with the enciphered counter block number 0.
  lemma SealedTag(E: Cipher, word: nat, sequence: nat, encrypted: nat, len: nat, payload: seq<Byte>,
                  nonce: seq<Byte>, k: nat, first: Block, ctr: Block)
    requires |payload| < 0x100_0000 && IsNonce(nonce, word, sequence) && k < 16
    requires IsFirst(first, |payload|, nonce, false, 16) && IsCounter(ctr, nonce, 0)
    ensures var m := Sealed(E, word, sequence, encrypted, len, payload);
            |m| == 6 + |payload| + 16
            && Xor(m[6 + |payload| + k], Apply(E, ctr)[k]) == CbcMac(E, Zeros(16), first + Padded(payload), 0)[k]
  {
    NonceIsNonce(nonce, word, sequence);
    ThreeBytes();
    TagIsMasked(E, nonce, [], payload, 16, first, [], ctr, k);
    NothingPadded(payload);
    hide Header, Crypt, Tag, Nonce, LittleEndian, Pow, Apply, Xor, CbcMac, Padded, Zeros;
    SealedParts(E, word, sequence, encrypted, len, payload, Sealed(E, word, sequence, encrypted, len, payload));
    var m, tag := Sealed(E, word, sequence, encrypted, len, payload), Tag(E, nonce, [], payload, 16);
    assert m[6 + |payload| + k] == m[6 + |payload|..6 + |payload| + 16][k] == tag[k];
  }

  lemma NothingPadded(s: seq<Byte>)
    ensures Padded([]) + Padded(s) == Padded(s)
  {
  }

  // A message is taken for authentic exactly when it begins as its sender would have sealed it.
  lemma AuthenticIffSealed(E: Cipher, m: seq<Byte>)
    requires Complete(m)
    ensures Authentic(E, m)
       <==> Sealed(E, RX_WORD, SequenceOf(m), FromLittleEndian(m[..HEADER]) / SEQUENCES, ClearLength(m), Opened(E, m)) <= m
  {
    var head := FromLittleEndian(m[..HEADER]);
    var sequence, encrypted, len, text := SequenceOf(m), head / SEQUENCES, ClearLength(m), Opened(E, m);
    LittleEndianOf(m[..HEADER]);
    LittleEndianOf(m[HEADER..HEADER + LENGTH]);
    DivModSplit(head, SEQUENCES);
    DivModUnique(sequence, SEQUENCES, 0, sequence);
    assert Header(sequence, encrypted) == m[..HEADER];
    CryptTwice(E, Nonce(RX_WORD, sequence), PayloadOf(m));
    hide Crypt, Tag, Nonce, LittleEndian, FromLittleEndian, Header, PayloadLength;
    var body := m[..HEADER] + m[HEADER..HEADER + LENGTH] + PayloadOf(m);
    var tag := Tag(E, Nonce(RX_WORD, sequence), [], text, TAG);
    assert Sealed(E, RX_WORD, sequence, encrypted, len, text) == body + tag;
    assert m[..|body|] == body && m[|body|..|body| + TAG] == TagOf(m);
    EndsWith(m, body, tag);
  }

  lemma EndsWith(m: seq<Byte>, body: seq<Byte>, tag: seq<Byte>)
    requires |body| + |tag| <= |m| && m[..|body|] == body
    ensures body + tag <= m <==> m[|body|..|body| + |tag|] == tag
  {
    assert m[..|body| + |tag|] == m[..|body|] + m[|body|..|body| + |tag|];
    if body + tag <= m {
      assert m[..|body| + |tag|] == body + tag;
      assert (body + tag)[|body|..] == tag;
    }
  }
}
