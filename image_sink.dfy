/**
 * `persist_image`: decode the fetched payload, name the file after the SHA-1 of
 * the raw payload, and write it as a JPEG under the query's folder.
 * The codec and the filesystem are reduced to whether they succeed; SHA-1
 * (FIPS 180-4) is a parameter, so nothing here depends on how it is computed.
 */
module ImageSink {
  import opened Text

  /** A message digest: raw bytes in, digest bytes out (SHA-1 in the scraper). */
  type Digest = seq<byte> -> seq<byte>

  /** What the codec and the filesystem do with one payload. */
  datatype Codec = Codec(
    decodes: bool,  // Image.open(...).convert("RGB") succeeds
    writes: bool)   // mkdir, open and the JPEG save all succeed

  /** How a call of `persist_image` ends. */
  datatype PersistResult =
    | Saved(path: string)  // the file was written; returns True
    | NotSaved             // a failure after the path was computed; returns False
    | Raised               // decoding failed, so the handler's own use of the unbound path raises

  /** The file name: the hexadecimal digest of the raw payload, then ".jpg". */
  function FileName(sha1: Digest, content: seq<byte>): (name: string)
    ensures |name| == 2 * |sha1(content)| + 4 && name[|name| - 4..] == ".jpg"
    ensures forall i :: 0 <= i < |name| - 4 ==> IsHexDigit(name[i])
    ensures !IsAbsolute(name)
  {
    HexDigest(sha1(content)) + ".jpg"
  }

  /** Where the image is written: the file name joined under the folder. */
  function FilePath(folder: string, sha1: Digest, content: seq<byte>): (path: string)
    ensures |folder| <= |path| && path[..|folder|] == folder
    ensures var name := FileName(sha1, content); |name| <= |path| && path[|path| - |name|..] == name
  {
    Join(folder, FileName(sha1, content))
  }

  /** The image file sits directly in the folder: `<folder>/<sha1 hex>.jpg`, with one `/` added only when needed. */
  lemma FilePathShape(folder: string, sha1: Digest, content: seq<byte>)
    ensures folder != [] && folder[|folder| - 1] != '/' ==>
              FilePath(folder, sha1, content) == folder + "/" + HexDigest(sha1(content)) + ".jpg"
    ensures folder == [] || folder[|folder| - 1] == '/' ==>
              FilePath(folder, sha1, content) == folder + HexDigest(sha1(content)) + ".jpg"
  {
    var hex, name := HexDigest(sha1(content)), FileName(sha1, content);
    assert name == hex + ".jpg";
    assert folder + "/" + name == folder + "/" + hex + ".jpg";
    assert folder + name == folder + hex + ".jpg";
    JoinExact(folder, name);
  }

  /**
   * Within one folder, two payloads share a file exactly when their digests
   * agree: the same bytes always land on the same file, and the codec plays
   * no part in the name.
   */
  lemma FilePathNamesDigest(folder: string, sha1: Digest, c1: seq<byte>, c2: seq<byte>)
    ensures FilePath(folder, sha1, c1) == FilePath(folder, sha1, c2) <==> sha1(c1) == sha1(c2)
  {
    if FilePath(folder, sha1, c1) == FilePath(folder, sha1, c2) {
      var n1, n2 := FileName(sha1, c1), FileName(sha1, c2);
      JoinCancel(folder, n1, n2);
      assert HexDigest(sha1(c1)) == n1[..|n1| - 4] == n2[..|n2| - 4] == HexDigest(sha1(c2));
      HexDigestInjective(sha1(c1), sha1(c2));
    }
  }

  /** `persist_image(content, folder)`. */
  function PersistImage(content: seq<byte>, folder: string, sha1: Digest, codec: Codec): (r: PersistResult)
    ensures r.Saved? ==> |folder| <= |r.path| && r.path[..|folder|] == folder
  {
    if !codec.decodes then Raised
    else if !codec.writes then NotSaved
    else Saved(FilePath(folder, sha1, content))
  }

  /**
   * A payload is saved exactly when it decodes and the write succeeds; a saved
   * payload goes to the file named by its own digest, whichever codec run
   * produced it, so persisting the same bytes again rewrites the same file.
   */
  lemma PersistOutcome(content: seq<byte>, folder: string, sha1: Digest, codec: Codec, again: Codec)
    ensures PersistImage(content, folder, sha1, codec).Saved? <==> codec.decodes && codec.writes
    ensures PersistImage(content, folder, sha1, codec).Raised? <==> !codec.decodes
    ensures PersistImage(content, folder, sha1, codec).Saved? && PersistImage(content, folder, sha1, again).Saved? ==>
              PersistImage(content, folder, sha1, codec) == PersistImage(content, folder, sha1, again)
    ensures PersistImage(content, folder, sha1, codec).Saved? ==>
              PersistImage(content, folder, sha1, codec).path == FilePath(folder, sha1, content)
  {
  }
}
