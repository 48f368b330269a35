/** The streaming percent decoder of core/src/iri_normalize.rs. */
module Decoder {
  import opened Utf8

  /** What decoding a percent-encoded text yields: literal runs and single decoded bytes. */
  datatype Chunk = Unencoded(text: string) | PctDecoded(byte: Byte)

  /** The bytes the chunks stand for. */
  function Bytes(chunks: seq<Chunk>): seq<Byte> {
    if chunks == [] then []
    else
      (match chunks[0]
       case Unencoded(text) => EncodeAll(text)
       case PctDecoded(b) => [b])
      + Bytes(chunks[1..])
  }

  /** What is still to come after the pending bytes, seen from one chunk to the next. */
  lemma NextChunk(pending: seq<Byte>, chunks: seq<Chunk>, i: nat)
    requires i < |chunks|
    ensures chunks[i].PctDecoded? ==>
              pending + Bytes(chunks[i..]) == pending + [chunks[i].byte] + Bytes(chunks[i + 1..])
    ensures chunks[i].Unencoded? ==>
              pending + Bytes(chunks[i..]) == pending + (EncodeAll(chunks[i].text) + Bytes(chunks[i + 1..]))
  {
    assert chunks[i..][0] == chunks[i] && chunks[i..][1..] == chunks[i + 1..];
  }

  /** A literal run ends whatever was pending and is kept as it is. */
  lemma LiteralRun(pending: seq<Byte>, text: string, rest: seq<Byte>)
    requires pending == [] || Incomplete(pending)
    requires text != ""
    ensures Lossy(pending + (EncodeAll(text) + rest)) == text + Lossy(rest)
  {
    LossyText(text, rest);
    var tail := EncodeAll(text) + rest;
    if pending == [] {
      assert pending + tail == tail;
    } else {
      EncodeMinimal(text[0]);
      assert tail[0] == Encode(text[0])[0] && !Continuation(tail[0]);
      LossyBroken(pending, tail);
    }
  }

  /** The text so far and the pending bytes after one decoded byte. */
  function Absorb(pending: seq<Byte>, b: Byte): (r: (string, seq<Byte>))
    requires pending == [] || Incomplete(pending)
    ensures r.1 == [] || Incomplete(r.1)
  {
    if Minimal(pending + [b]) then ([Decode(pending + [b])], [])
    else if Incomplete(pending + [b]) then ("", pending + [b])
    else if Minimal([b]) then ([Decode([b])], [])
    else if Incomplete([b]) then ("", [b])
    else ("", [])
  }

  /** A byte that cannot go on with what is pending is taken up on its own. */
  lemma AbsorbRestart(pending: seq<Byte>, b: Byte, rest: seq<Byte>)
    requires pending == [] || Incomplete(pending)
    requires !Fits(pending + [b])
    ensures Lossy(pending + [b] + rest) == Lossy([b] + rest)
  {
    assert pending + [b] + rest == pending + ([b] + rest);
    if pending != [] {
      LossyBroken(pending, [b] + rest);
    } else {
      assert pending + ([b] + rest) == [b] + rest;
    }
  }

  lemma AbsorbAlone(b: Byte, rest: seq<Byte>)
    ensures Minimal([b]) ==> Lossy([b] + rest) == [Decode([b])] + Lossy(rest)
    ensures !Fits([b]) ==> Lossy([b] + rest) == Lossy(rest)
  {
    if Minimal([b]) {
      LossyMinimal([b], rest);
    } else if !Fits([b]) {
      LossyBadByte(b, rest);
    }
  }

  lemma AbsorbKeepsMeaning(pending: seq<Byte>, b: Byte, rest: seq<Byte>)
    requires pending == [] || Incomplete(pending)
    ensures Lossy(pending + [b] + rest) == Absorb(pending, b).0 + Lossy(Absorb(pending, b).1 + rest)
  {
    assert [] + rest == rest;
    if Minimal(pending + [b]) {
      LossyMinimal(pending + [b], rest);
    } else if !Incomplete(pending + [b]) {
      AbsorbRestart(pending, b, rest);
      AbsorbAlone(b, rest);
    }
  }

  /** One decoded byte goes through the buffer; `text` is what it completes. */
  method PushByte(bytes: array<Byte>, used: nat, b: Byte) returns (text: string, left: nat)
    requires bytes.Length == 4
    requires used <= 3
    requires used > 0 ==> Incomplete(bytes[..used])
    modifies bytes
    ensures left <= 3
    ensures (text, bytes[..left]) == Absorb(old(bytes[..used]), b)
  {
    ghost var pending := bytes[..used];
    FromUtf8OneMore(pending, b);
    text, left := "", used + 1;
    bytes[used] := b;
    assert bytes[..left] == pending + [b];
    match FromUtf8(bytes[..left])
    case Valid =>
      text, left := [Decode(bytes[..left])], 0;
    case Unfinished =>
    case Malformed =>
      FromUtf8OneMore([], b);
      assert [] + [b] == [b];
      bytes[0] := b;
      left := 1;
      assert bytes[..left] == [b];
      match FromUtf8(bytes[..left])
      case Valid =>
        text, left := [Decode(bytes[..left])], 0;
      case Unfinished =>
      case Malformed =>
        left := 0;
  }

  /** Decoding the pending bytes and the chunks still to come leads from `out` to `goal`. */
  ghost predicate LeadsTo(goal: string, out: string, pending: seq<Byte>, chunks: seq<Chunk>) {
    && (pending == [] || Incomplete(pending))
    && goal == out + Lossy(pending + Bytes(chunks))
  }

  lemma StepLiteral(goal: string, out: string, pending: seq<Byte>, chunks: seq<Chunk>, i: nat)
    requires i < |chunks| && chunks[i].Unencoded? && chunks[i].text != ""
    requires LeadsTo(goal, out, pending, chunks[i..])
    ensures LeadsTo(goal, out + chunks[i].text, [], chunks[i + 1..])
  {
    var rest := Bytes(chunks[i + 1..]);
    NextChunk(pending, chunks, i);
    LiteralRun(pending, chunks[i].text, rest);
    assert [] + rest == rest;
  }

  lemma StepByte(goal: string, out: string, pending: seq<Byte>, chunks: seq<Chunk>, i: nat)
    requires i < |chunks| && chunks[i].PctDecoded?
    requires LeadsTo(goal, out, pending, chunks[i..])
    ensures LeadsTo(goal, out + Absorb(pending, chunks[i].byte).0, Absorb(pending, chunks[i].byte).1, chunks[i + 1..])
  {
    var rest := Bytes(chunks[i + 1..]);
    NextChunk(pending, chunks, i);
    AbsorbKeepsMeaning(pending, chunks[i].byte, rest);
    var (text, left) := Absorb(pending, chunks[i].byte);
    assert out + (text + Lossy(left + rest)) == out + text + Lossy(left + rest);
  }

  lemma StepEnd(goal: string, out: string, pending: seq<Byte>)
    requires LeadsTo(goal, out, pending, [])
    ensures goal == out
  {
    if pending != [] {
      LossyBroken(pending, []);
    }
  }

  /**
   * The streaming decode with its 4-byte buffer appends what one decode of all the bytes
   * yields, wherever the chunk boundaries fall.
   */
  method ExtendDecodeStripInvalid(result: string, chunks: seq<Chunk>) returns (out: string)
    requires forall c | c in chunks :: c.Unencoded? ==> c.text != ""
    ensures out == result + Lossy(Bytes(chunks))
  {
    ghost var goal := result + Lossy(Bytes(chunks));
    out := result;
    var bytes := new Byte[4](_ => 0);
    var used: nat := 0;
    assert LeadsTo(goal, out, bytes[..0], chunks[0..]) by {
      assert bytes[..0] + Bytes(chunks[0..]) == Bytes(chunks);
    }
    for i := 0 to |chunks|
      invariant used <= 3
      invariant LeadsTo(goal, out, bytes[..used], chunks[i..])
    {
      match chunks[i]
      case Unencoded(text) =>
        StepLiteral(goal, out, bytes[..used], chunks, i);
        out := out + text;
        used := 0;
      case PctDecoded(b) =>
        StepByte(goal, out, bytes[..used], chunks, i);
        var text;
        text, used := PushByte(bytes, used, b);
        out := out + text;
    }
    StepEnd(goal, out, bytes[..used]);
  }
}
