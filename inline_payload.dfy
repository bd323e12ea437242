/**
 * `deocde_b64_image`: choose where an inline base64 payload starts and decode
 * from there. The base64 decoder (section 4 of RFC 4648) is a parameter.
 * The retrieval loop never calls this helper.
 */
module InlinePayload {
  import opened Wrappers
  import opened Text

  /** The bytes of "/9", with which a base64-encoded JPEG begins. */
  const Marker: seq<byte> := [47, 57]

  lemma MarkerSpellsSlashNine()
    ensures AsciiEncode("/9") == Some(Marker)
  {
    var e := AsciiEncode("/9");
    assert e.Some?;
    assert e.value[0] == 47 && e.value[1] == 57;
    assert e.value == Marker;
  }

  /** The part of the encoded source that is handed to the decoder. */
  function Payload(b: seq<byte>): (p: seq<byte>)
    ensures |p| <= |b| && p == b[|b| - |p|..]
  {
    var start := Find(b, Marker);
    if start > 0 then b[start..] else b
  }

  /** When the first "/9" is past the start, decoding begins there. */
  lemma PayloadFromFirstMarker(b: seq<byte>, k: int)
    requires 0 < k && OccursAt(b, Marker, k)
    requires forall j :: 0 <= j < k ==> !OccursAt(b, Marker, j)
    ensures Payload(b) == b[k..]
    ensures OccursAt(Payload(b), Marker, 0)
  {
    assert Find(b, Marker) == k;
  }

  /** With no "/9", or one at the very start, the whole source is decoded. */
  lemma PayloadWhole(b: seq<byte>)
    requires (forall j :: !OccursAt(b, Marker, j)) || OccursAt(b, Marker, 0)
    ensures Payload(b) == b
  {
  }

  /** The payload differs from the source exactly when the first "/9" sits past the start. */
  lemma PayloadTrimsIff(b: seq<byte>)
    ensures Payload(b) != b <==> 0 < Find(b, Marker)
    ensures Payload(b) != b ==> OccursAt(Payload(b), Marker, 0) && !OccursAt(b, Marker, 0)
  {
    var start := Find(b, Marker);
    if 0 < start {
      assert |Payload(b)| < |b|;
    }
  }

  /**
   * `deocde_b64_image(src)`: `None` when `bytes(src, 'ascii')` raises,
   * otherwise the decoder applied to the chosen payload.
   */
  function DecodeB64Image<R>(src: string, b64decode: seq<byte> -> R): (r: Option<R>)
    ensures r.None? <==> exists i :: 0 <= i < |src| && src[i] as int >= 128
    ensures r.Some? ==> r.value == b64decode(Payload(AsciiEncode(src).value))
  {
    match AsciiEncode(src)
    case None => None
    case Some(b) => Some(b64decode(Payload(b)))
  }
}
