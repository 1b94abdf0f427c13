/**
 `decode_pointer_inplace`: undoing the token encoding inside the buffer that holds the token. The
 loop never copies an ordinary character back, and it stores the decoded slash one place too far, so
 it undoes the encoding for some keys only. This module says for which.
 */
module PointerDecode {
  import opened CString
  import opened Pointer

  /** The C string left in the buffer, from write position `d` and read position `s` on. */
  function DecodeRun(buf: string, d: nat, s: nat): string
    requires d <= s <= |buf|
    decreases |buf| - s
  {
    if s == |buf| then buf[..d]
    else if buf[s] != '~' then DecodeRun(buf, d + 1, s + 1)
    else if At(buf, s + 1) == '0' && s + 1 < |buf| then DecodeRun(buf[d := '~'], d + 1, s + 2)
    else if At(buf, s + 1) == '1' && s + 1 < |buf| then DecodeRun(buf[d + 1 := '/'], d + 1, s + 2)
    else buf
  }

  function DecodeInPlace(token: string): string {
    DecodeRun(token, 0, 0)
  }

  /** The loop on the buffer: `token` with its terminator. */
  method DecodePointerInPlace(buffer: array<char>, token: string)
    requires NulFree(token) && buffer.Length == |token| + 1 && buffer[..] == token + [NUL]
    modifies buffer
    ensures var r := DecodeInPlace(token);
            |r| < buffer.Length && buffer[..|r|] == r && buffer[|r|] == NUL
  {
    var d, s := 0, 0;
    while buffer[s] != NUL
      invariant 0 <= d <= s <= |token|
      invariant buffer[|token|] == NUL
      invariant forall k :: s <= k < |token| ==> buffer[k] == token[k]
      invariant DecodeRun(buffer[..|token|], d, s) == DecodeInPlace(token)
      decreases |token| - s
    {
      ghost var text := buffer[..|token|];
      if buffer[s] == '~' {
        if buffer[s + 1] == '0' {
          buffer[d] := '~';
          assert buffer[..|token|] == text[d := '~'];
        } else if buffer[s + 1] == '1' {
          buffer[d + 1] := '/';
          assert buffer[..|token|] == text[d + 1 := '/'];
        } else {
          return;
        }
        s := s + 1;
      }
      d, s := d + 1, s + 1;
    }
    assert s == |token|;
    assert buffer[..d] == buffer[..|token|][..d];
    buffer[d] := NUL;
  }

  /** What ends up at place `i` when the encoding of `k` is decoded. */
  function DecodedChar(k: string, i: nat): char
    requires i < |k|
  {
    if k[i] == '~' then '~'
    else if i > 0 && k[i - 1] == '/' then '/'
    else Encode(k)[i]
  }

  function Decoded(k: string): (r: string)
    ensures |r| == |k|
    ensures forall i :: 0 <= i < |k| ==> r[i] == DecodedChar(k, i)
  {
    seq(|k|, i requires 0 <= i < |k| => DecodedChar(k, i))
  }

  /** The buffer once the first `j` characters of `k` have been decoded. */
  function BufferAfter(k: string, j: nat): (r: string)
    requires j <= |k|
    ensures |r| == |Encode(k)|
    ensures forall i :: 0 <= i < |r| ==>
              r[i] == if i < j then DecodedChar(k, i) else if 0 < i == j && k[j - 1] == '/' then '/' else Encode(k)[i]
  {
    var e := Encode(k);
    seq(|e|, i requires 0 <= i < |e| =>
      if i < j then DecodedChar(k, i) else if 0 < i == j && k[j - 1] == '/' then '/' else e[i])
  }

  lemma BufferStep(k: string, j: nat)
    requires j < |k|
    ensures k[j] == '~' ==> BufferAfter(k, j)[j := '~'] == BufferAfter(k, j + 1)
    ensures k[j] == '/' && j + 1 < |Encode(k)| ==> BufferAfter(k, j)[j + 1 := '/'] == BufferAfter(k, j + 1)
    ensures k[j] != '~' && k[j] != '/' ==> BufferAfter(k, j) == BufferAfter(k, j + 1)
  {
  }

  /** The encoding of `k`, split at character `j`. */
  lemma EncodedTail(k: string, j: nat)
    requires j < |k|
    ensures var n, c := |Encode(k[..j])|, EncodeChar(k[j]);
            && j <= n && n + |c| == |Encode(k[..j + 1])| <= |Encode(k)|
            && Encode(k)[n] == c[0]
            && (|c| == 2 ==> Encode(k)[n + 1] == c[1])
  {
    var n, c := |Encode(k[..j])|, EncodeChar(k[j]);
    EncodeSnoc(k, j);
    EncodeConcat(k[..j + 1], k[j + 1..]);
    assert k == k[..j + 1] + k[j + 1..];
    assert Encode(k) == Encode(k[..j]) + c + Encode(k[j + 1..]);
  }

  /** The read position is never overtaken by the writes. */
  lemma UnreadIntact(k: string, j: nat)
    requires j < |k|
    ensures var n, c := |Encode(k[..j])|, EncodeChar(k[j]);
            && j <= n && n + |c| == |Encode(k[..j + 1])| <= |Encode(k)|
            && BufferAfter(k, j)[n] == c[0]
            && (|c| == 2 ==> BufferAfter(k, j)[n + 1] == c[1])
  {
    EncodedTail(k, j);
    if j > 0 {
      EncodeSnoc(k, j - 1);
    }
  }

  /** One round of the decode loop on a well-formed token. */
  lemma RunUnfold(buf: string, d: nat, s: nat, c: char)
    requires d <= s && s + |EncodeChar(c)| <= |buf|
    requires buf[s] == EncodeChar(c)[0] && (|EncodeChar(c)| == 2 ==> buf[s + 1] == EncodeChar(c)[1])
    ensures DecodeRun(buf, d, s) ==
            DecodeRun(if c == '~' then buf[d := '~'] else if c == '/' then buf[d + 1 := '/'] else buf,
                      d + 1, s + |EncodeChar(c)|)
  {
  }

  lemma DecodeOneStep(k: string, j: nat)
    requires j < |k| && j <= |Encode(k[..j])| <= |Encode(k)|
    ensures j + 1 <= |Encode(k[..j + 1])| <= |Encode(k)|
    ensures DecodeRun(BufferAfter(k, j), j, |Encode(k[..j])|) ==
            DecodeRun(BufferAfter(k, j + 1), j + 1, |Encode(k[..j + 1])|)
  {
    UnreadIntact(k, j);
    BufferStep(k, j);
    RunUnfold(BufferAfter(k, j), j, |Encode(k[..j])|, k[j]);
  }

  lemma {:induction false} DecodeSteps(k: string, j: nat)
    requires j <= |k| && j <= |Encode(k[..j])| <= |Encode(k)|
    ensures DecodeRun(BufferAfter(k, j), j, |Encode(k[..j])|) == Decoded(k)
    decreases |k| - j
  {
    if j == |k| {
      assert k[..j] == k;
      assert BufferAfter(k, j)[..j] == Decoded(k);
    } else {
      DecodeOneStep(k, j);
      DecodeSteps(k, j + 1);
    }
  }

  lemma DecodeChars(k: string)
    ensures DecodeInPlace(Encode(k)) == Decoded(k)
  {
    assert k[..0] == "";
    DecodeSteps(k, 0);
    assert BufferAfter(k, 0) == Encode(k);
  }

  /** Keys that survive: no slash, and every ordinary character already in place in the encoding. */
  predicate DecodesBack(k: string) {
    '/' !in k && forall i :: 0 <= i < |k| ==> k[i] == '~' || k[i] == Encode(k)[i]
  }

  lemma FirstSlash(k: string) returns (i: nat)
    requires '/' in k
    ensures i < |k| && k[i] == '/' && (i > 0 ==> k[i - 1] != '/')
  {
    i :| 0 <= i < |k| && k[i] == '/';
    while i > 0 && k[i - 1] == '/'
      invariant 0 <= i < |k| && k[i] == '/'
    {
      i := i - 1;
    }
  }

  /** The exact set of keys on which decoding undoes encoding. */
  lemma DecodeUndoesEncode(k: string)
    ensures DecodeInPlace(Encode(k)) == k <==> DecodesBack(k)
  {
    DecodeChars(k);
    EncodeNoSlash(k);
    var r := DecodeInPlace(Encode(k));
    if '/' in k {
      var f := FirstSlash(k);
      assert r[f] == Encode(k)[f] && Encode(k)[f] in Encode(k);
      assert r != k;
    } else if r == k {
      assert forall i :: 0 <= i < |k| ==> k[i] == DecodedChar(k, i);
    }
    if DecodesBack(k) {
      assert forall i :: 0 <= i < |k| ==> r[i] == k[i];
    }
  }

  lemma {:induction false} EncodePlain(k: string)
    requires '~' !in k && '/' !in k
    ensures Encode(k) == k
  {
    if k != "" {
      EncodePlain(k[1..]);
    }
  }

  /** In particular every key without `~` and `/` survives. */
  lemma PlainDecodesBack(k: string)
    requires '~' !in k && '/' !in k
    ensures DecodesBack(k)
  {
    EncodePlain(k);
  }

  /** A key with a slash, or with a tilde followed by a letter, does not survive. */
  lemma DecodeLosesEscapes()
    ensures DecodeInPlace(Encode("a/b")) != "a/b"
    ensures DecodeInPlace(Encode("a~b")) != "a~b"
  {
    DecodeUndoesEncode("a/b");
    DecodeUndoesEncode("a~b");
    assert "a/b"[1] == '/';
    var k := "a~b";
    assert k[1..] == "~b" && "~b"[1..] == "b" && "b"[1..] == "";
    assert Encode("b") == "b";
    assert Encode("~b") == "~0" + Encode("b");
    assert Encode(k) == "a" + Encode("~b");
    assert k[2] == 'b' && Encode(k)[2] == '0';
  }
}
