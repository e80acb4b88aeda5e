/**
 The cipher wrapper of mysql_proxy_api.cpp: a length prefix, padding to eight bytes, and ECB
 (section 6.1 of NIST SP 800-38A) in pieces of 512 bytes. The block function is a parameter that
 stands for DES under the caller's key; ecb_crypt refuses lengths that are no multiple of eight.
 */
module Cipher {
  import opened Bytes

  const BLOCK: nat := 8
  const PIECE: nat := 512
  const SPACE: byte := 32

  type BlockFunction = seq<byte> -> seq<byte>

  ghost predicate Inverts(dec: BlockFunction, enc: BlockFunction) {
    forall b: seq<byte> {:trigger enc(b)} :: |b| == BLOCK ==> |enc(b)| == BLOCK && dec(enc(b)) == b
  }

  ghost predicate KeepsLength(f: BlockFunction) {
    forall b: seq<byte> {:trigger f(b)} :: |b| == BLOCK ==> |f(b)| == BLOCK
  }

  /** f applied to every block of s. */
  function Ecb(f: BlockFunction, s: seq<byte>): seq<byte> {
    if |s| < BLOCK then [] else f(s[..BLOCK]) + Ecb(f, s[BLOCK..])
  }

  lemma {:induction false} EcbLength(f: BlockFunction, s: seq<byte>)
    requires KeepsLength(f) && |s| % 8 == 0
    ensures |Ecb(f, s)| == |s|
  {
    if |s| >= BLOCK {
      EcbLength(f, s[BLOCK..]);
    }
  }

  lemma {:induction false} EcbAppend(f: BlockFunction, a: seq<byte>, b: seq<byte>)
    requires |a| % 8 == 0
    ensures Ecb(f, a + b) == Ecb(f, a) + Ecb(f, b)
  {
    if a == [] {
      assert a + b == b;
    } else {
      assert (a + b)[..BLOCK] == a[..BLOCK] && (a + b)[BLOCK..] == a[BLOCK..] + b;
      EcbAppend(f, a[BLOCK..], b);
    }
  }

  lemma {:induction false} EcbInverts(enc: BlockFunction, dec: BlockFunction, s: seq<byte>)
    requires Inverts(dec, enc) && |s| % 8 == 0
    ensures Ecb(dec, Ecb(enc, s)) == s
  {
    if |s| >= BLOCK {
      var head, tail := enc(s[..BLOCK]), Ecb(enc, s[BLOCK..]);
      assert dec(head) == s[..BLOCK];
      assert (head + tail)[..BLOCK] == head && (head + tail)[BLOCK..] == tail;
      EcbInverts(enc, dec, s[BLOCK..]);
    }
  }

  /** The spaces that bring n bytes to the next multiple of eight. */
  function Spaces(n: nat): (s: seq<byte>)
    ensures |s| < BLOCK && (n + |s|) % 8 == 0
  {
    if n % 8 == 0 then [] else seq(8 - n % 8, i => SPACE)
  }

  /** Length prefix, content, and spaces up to the next multiple of eight. */
  function Padded(content: seq<byte>): (s: seq<byte>)
    ensures |s| % 8 == 0
    ensures 4 + |content| <= |s| < 4 + |content| + BLOCK
  {
    ToLe(|content|, 4) + content + Spaces(4 + |content|)
  }

  /**
   The tail of Decrypt. The length is read as a signed int and compared after conversion to an unsigned
   64-bit sum, so the four values just below 2^32 pass the check and stand for all that follows.
   */
  function Unwrap(plain: seq<byte>): (content: seq<byte>)
    ensures |plain| <= 4 ==> content == []
    ensures |plain| > 4 ==> content <= plain[4..]
  {
    if |plain| <= 4 then []
    else
      var n := Le(plain[..4]);
      if n <= INT_MAX && n + 4 <= |plain| then plain[4..4 + n]
      else if n >= U32 - 4 then plain[4..]
      else []
  }

  /** Encrypt: the length of the padded source is held in 32 bits, and only so many bytes are encrypted. */
  function Encrypted(enc: BlockFunction, content: seq<byte>): seq<byte> {
    var source := Padded(content);
    Ecb(enc, source[..Wrap32(|source|)])
  }

  /** Decrypt: the length of the ciphertext is held in an int, and only so many bytes are decrypted. */
  function Decrypted(dec: BlockFunction, content: seq<byte>): seq<byte> {
    var n := ToInt(|content|);
    if |content| < 4 || n <= 0 || n % 8 != 0 then [] else Unwrap(Ecb(dec, content[..n]))
  }

  lemma UnwrapPadded(content: seq<byte>)
    requires |Padded(content)| <= INT_MAX
    ensures Unwrap(Padded(content)) == content
  {
    LengthFound(content);
  }

  /** Decrypt undoes Encrypt exactly when the padded content fits an int, given any invertible block function. */
  lemma DecryptUndoesEncrypt(enc: BlockFunction, dec: BlockFunction, content: seq<byte>)
    requires Inverts(dec, enc) && KeepsLength(dec)
    ensures Decrypted(dec, Encrypted(enc, content)) == content <==> |Padded(content)| <= INT_MAX
  {
    var p := Padded(content);
    if |p| <= INT_MAX {
      assert p[..Wrap32(|p|)] == p;
      EcbLength(enc, p);
      var c := Ecb(enc, p);
      assert c[..|c|] == c;
      EcbInverts(enc, dec, p);
      UnwrapPadded(content);
    } else {
      CutIsShorter(enc, dec, content);
    }
  }

  /** What is not within an int comes back shorter than it was. */
  lemma CutIsShorter(enc: BlockFunction, dec: BlockFunction, content: seq<byte>)
    requires KeepsLength(enc) && KeepsLength(dec) && |Padded(content)| > INT_MAX
    ensures |Decrypted(dec, Encrypted(enc, content))| < |content|
  {
    var c := Encrypted(enc, content);
    EncryptedLength(enc, content);
    DecryptedLength(dec, c);
    TooLongForInt(|Padded(content)|);
  }

  lemma EncryptedLength(enc: BlockFunction, content: seq<byte>)
    requires KeepsLength(enc)
    ensures |Encrypted(enc, content)| == Wrap32(|Padded(content)|)
  {
    var source := Padded(content);
    EightsInInt(|source|);
    EcbLength(enc, source[..Wrap32(|source|)]);
  }

  lemma DecryptedLength(dec: BlockFunction, c: seq<byte>)
    requires KeepsLength(dec)
    ensures |Decrypted(dec, c)| <= if ToInt(|c|) <= 4 then 0 else ToInt(|c|) - 4
  {
    var n := ToInt(|c|);
    if n > 0 && n % 8 == 0 {
      EcbLength(dec, c[..n]);
    }
  }

  lemma TooLongForInt(n: nat)
    requires n > INT_MAX
    ensures n < U32 ==> ToInt(Wrap32(n)) < 0
    ensures ToInt(Wrap32(n)) <= INT_MAX
  {
  }

  /** Two contents of which all bytes are encrypted never share a ciphertext. */
  lemma EncryptIsInjective(enc: BlockFunction, dec: BlockFunction, x: seq<byte>, y: seq<byte>)
    requires Inverts(dec, enc) && |Padded(x)| < U32 && |Padded(y)| < U32
    requires Encrypted(enc, x) == Encrypted(enc, y)
    ensures x == y
  {
    SourceFound(enc, dec, x);
    SourceFound(enc, dec, y);
    LengthFound(x);
    LengthFound(y);
  }

  lemma SourceFound(enc: BlockFunction, dec: BlockFunction, x: seq<byte>)
    requires Inverts(dec, enc) && |Padded(x)| < U32
    ensures Ecb(dec, Encrypted(enc, x)) == Padded(x)
  {
    var p := Padded(x);
    assert p[..Wrap32(|p|)] == p;
    EcbInverts(enc, dec, p);
  }

  /** The padded source begins with the length of the content, followed by the content. */
  lemma LengthFound(x: seq<byte>)
    requires |x| < U32
    ensures Le(Padded(x)[..4]) == |x| && Padded(x)[4..4 + |x|] == x
  {
    Pow256Values();
    LeToLe(|x|, 4);
    assert Padded(x)[..4] == ToLe(|x|, 4);
  }

  /** A length that is no length: with the prefix 2^32 - 1 Decrypt returns all that follows. */
  lemma FalseLengthIsTaken()
    ensures Unwrap([255, 255, 255, 255, 7]) == [7]
  {
    var plain: seq<byte> := [255, 255, 255, 255, 7];
    assert plain[..4] == ToLe(U32 - 1, 4);
    Pow256Values();
    LeToLe(U32 - 1, 4);
    assert plain[4..] == [7];
  }

  /** One call of ecb_crypt, on the n bytes behind those that are done. */
  method CryptPiece(f: BlockFunction, s: seq<byte>, result: seq<byte>, n: nat) returns (more: seq<byte>)
    requires KeepsLength(f) && Done(f, s, result) && |result| + n <= |s| && n % 8 == 0
    ensures |more| == |result| + n && Done(f, s, more)
  {
    var done := |result|;
    more := result + Ecb(f, s[done..done + n]);
    EcbLength(f, s[done..done + n]);
    assert s[..done + n] == s[..done] + s[done..done + n];
    EcbAppend(f, s[..done], s[done..done + n]);
    EightsTogether(done, n);
  }

  /** The first bytes of s, in whole blocks, have gone through f. */
  ghost predicate Done(f: BlockFunction, s: seq<byte>, result: seq<byte>) {
    |result| <= |s| && |result| % 8 == 0 && result == Ecb(f, s[..|result|])
  }

  lemma EightsTogether(a: nat, b: nat)
    requires a % 8 == 0 && b % 8 == 0
    ensures (a + b) % 8 == 0
  {
  }

  /** A 32-bit length survives being held in an int. */
  lemma ThroughInt(n: nat)
    requires n < U32
    ensures n == if ToInt(n) < 0 then ToInt(n) + U32 else ToInt(n)
  {
  }

  /** What an int says is left shrinks with every byte that is done. */
  lemma LeftInInt(size: nat, done: nat)
    requires done <= ToInt(size) && done <= size
    ensures ToInt(size - done) == ToInt(size) - done
  {
  }

  lemma EightsInInt(size: nat)
    ensures ToInt(size) % 8 == size % 8 && Wrap32(size) % 8 == size % 8
  {
  }

  lemma EightsLeft(all: nat, done: nat)
    requires done <= all && done % 8 == 0
    ensures (all - done) % 8 == all % 8
  {
  }

  method Encrypt(enc: BlockFunction, content: seq<byte>) returns (result: seq<byte>)
    requires KeepsLength(enc)
    ensures result == Encrypted(enc, content)
  {
    var source := ToLe(|content|, 4) + content;
    assert Padded(content) == source + Spaces(|source|);
    if |source| % 8 != 0 {
      source := source + Spaces(|source|);
    }
    assert source == Padded(content);
    result := EncryptPieces(enc, source);
  }

  /** The loop of Encrypt, with its 32-bit lengths: 512 bytes at a time is the same as block by block. */
  method EncryptPieces(enc: BlockFunction, source: seq<byte>) returns (result: seq<byte>)
    requires KeepsLength(enc) && |source| % 8 == 0
    ensures result == Ecb(enc, source[..Wrap32(|source|)])
  {
    var length := Wrap32(|source|);
    ghost var all := length;
    result := [];
    EightsInInt(|source|);
    while length > 0
      invariant 0 <= length == all - |result| && Done(enc, source, result)
    {
      EightsLeft(all, |result|);
      var left := 0;
      if length > PIECE {
        left := ToInt(length - PIECE);
        length := PIECE;
      }
      result := CryptPiece(enc, source, result, length);
      ThroughInt(all - |result|);
      length := if left < 0 then left + U32 else left;
    }
  }

  method Decrypt(dec: BlockFunction, content: seq<byte>) returns (plain: seq<byte>)
    requires KeepsLength(dec)
    ensures plain == Decrypted(dec, content)
  {
    if |content| < 4 {
      return [];
    }
    var ok, result := DecryptPieces(dec, content);
    if !ok {
      return [];
    }
    ghost var n := ToInt(|content|);
    if n > 0 {
      EcbLength(dec, content[..n]);
    }
    if |result| > 4 {
      plain := ReadLength(result);
    } else {
      plain := [];
    }
  }

  /** The loop of Decrypt, with its int length: ecb_crypt refuses a last piece that is no multiple of eight. */
  method DecryptPieces(dec: BlockFunction, content: seq<byte>) returns (ok: bool, result: seq<byte>)
    requires KeepsLength(dec)
    ensures ok <==> ToInt(|content|) <= 0 || |content| % 8 == 0
    ensures ok ==> result == if ToInt(|content|) <= 0 then [] else Ecb(dec, content[..ToInt(|content|)])
  {
    var length := ToInt(|content|);
    ghost var all := length;
    result := [];
    EightsInInt(|content|);
    if length <= 0 {
      return true, [];
    }
    while length > 0
      invariant 0 <= length == all - |result| && Done(dec, content, result)
    {
      EightsLeft(all, |result|);
      if length > PIECE {
        length := PIECE;
      }
      if length % 8 != 0 {
        return false, [];
      }
      result := CryptPiece(dec, content, result, length);
      LeftInInt(|content|, |result|);
      length := ToInt(|content| - |result|);
    }
    ok := true;
  }

  /** The length check of Decrypt, with its conversions between int and size_t. */
  method ReadLength(result: seq<byte>) returns (plain: seq<byte>)
    requires 4 < |result| <= INT_MAX
    ensures plain == Unwrap(result)
  {
    var n := Le(result[..4]);
    LeBound(result[..4]);
    Pow256Values();
    UnwrapCheck(result, n);
    var length := if n <= INT_MAX then n else n - U32;
    if Wrap64(length % 0x1_0000_0000_0000_0000 + 4) <= |result| {
      return if length < 0 then result[4..] else result[4..4 + length];
    }
    return [];
  }

  /** The unsigned comparison of Decrypt, resolved. */
  lemma UnwrapCheck(plain: seq<byte>, n: nat)
    requires |plain| <= INT_MAX && n < U32
    ensures n <= INT_MAX ==> (Wrap64(n % 0x1_0000_0000_0000_0000 + 4) <= |plain| <==> n + 4 <= |plain|)
    ensures n > INT_MAX && |plain| > 4 ==>
              (Wrap64((n - U32) % 0x1_0000_0000_0000_0000 + 4) <= |plain| <==> n >= U32 - 4)
  {
  }
}
