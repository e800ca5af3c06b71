/** The descriptor helpers of torrents.py: the extension of a descriptor path,
    the magnet link built from a torrent's info-hash and name, and the text of
    a `.magnet` file. */
module Torrents {
  import opened Wrappers
  import opened Pystr
  import Paths

  /** `get_extension`: the extension `os.path.splitext` gives. */
  function GetExtension(path: string): string {
    Paths.SplitExt(path).1
  }

  /** The extension and the root rebuild the path, and a non-empty extension
      runs from the last '.' of the path, which lies in the final component. */
  lemma GetExtensionSpec(path: string)
    ensures Paths.SplitExt(path).0 + GetExtension(path) == path
    ensures GetExtension(path) != [] ==>
      LastIndexOf(path, '/') < LastIndexOf(path, '.') &&
      GetExtension(path) == path[LastIndexOf(path, '.')..]
  {
  }

  /** The extension is empty, or one '.' followed by neither '.' nor '/'. */
  lemma ExtensionShape(path: string)
    ensures var ext := GetExtension(path);
      ext == [] || (ext[0] == '.' && '/' !in ext && '.' !in ext[1..])
  {
    var ext := GetExtension(path);
    if ext != [] {
      var dotIndex := LastIndexOf(path, '.');
      GetExtensionSpec(path);
      forall k | 1 <= k < |ext| ensures ext[k] != '.' && ext[k] != '/' {
        assert ext[k] == path[dotIndex + k];
      }
      assert ext[0] == path[dotIndex] == '.';
    }
  }

  /** A path has an extension exactly when its final component holds a '.'
      somewhere after a character other than '.'. */
  lemma ExtensionExistsIff(path: string)
    ensures GetExtension(path) != [] <==>
      exists i, j :: LastIndexOf(path, '/') < i < j < |path| && path[i] != '.' && path[j] == '.'
  {
    var sepIndex := LastIndexOf(path, '/');
    var dotIndex := LastIndexOf(path, '.');
    if exists i, j :: sepIndex < i < j < |path| && path[i] != '.' && path[j] == '.' {
      var i, j :| sepIndex < i < j < |path| && path[i] != '.' && path[j] == '.';
      assert j <= dotIndex;
      assert sepIndex < i < dotIndex && path[i] != '.';
      assert GetExtension(path) != [];
    }
  }

  // --------------------------------------------------------------- magnet link

  const MagnetPrefix: string := "magnet:?xt=urn:btih:"
  const NameField: string := "&dn="

  /** The magnet link of `extract_magnet_from_torrent` (torrents.py:27-31), from
      the SHA-1 digest of the bencoded `info` dictionary and the torrent's name:
      the digest in lower-case hexadecimal, the name as it is (not URL-encoded). */
  function MagnetLink(infoHash: seq<byte>, name: string): string {
    MagnetPrefix + Hex(infoHash) + NameField + name
  }

  /** Reads back the info-hash (of `hashLength` bytes) and the name of a link in
      the form `MagnetLink` writes. */
  function ParseMagnetLink(link: string, hashLength: nat): Option<(seq<byte>, string)> {
    var p := |MagnetPrefix|;
    var h := 2 * hashLength;
    if StartsWith(link, MagnetPrefix) && p + h + |NameField| <= |link| &&
       (forall k :: p <= k < p + h ==> IsLowerHex(link[k])) &&
       link[p + h..p + h + |NameField|] == NameField
    then
      Some((UnHex(link[p..p + h]), link[p + h + |NameField|..]))
    else
      None
  }

  /** Every link `MagnetLink` writes reads back to the digest and name it came
      from, whatever characters the name holds. */
  lemma MagnetLinkRoundTrip(infoHash: seq<byte>, name: string)
    ensures ParseMagnetLink(MagnetLink(infoHash, name), |infoHash|) == Some((infoHash, name))
  {
    var link := MagnetLink(infoHash, name);
    var p, h := |MagnetPrefix|, 2 * |infoHash|;
    var hex := Hex(infoHash);
    ConcatParts(MagnetPrefix, hex, NameField, name);
    forall k | p <= k < p + h ensures IsLowerHex(link[k]) {
      assert link[k] == hex[k - p];
    }
    UnHexHex(infoHash);
  }

  /** The four parts of a concatenation are its slices at their lengths. */
  lemma ConcatParts(a: string, b: string, c: string, d: string)
    ensures var s := a + b + c + d;
      s[..|a|] == a && s[|a|..|a| + |b|] == b &&
      s[|a| + |b|..|a| + |b| + |c|] == c && s[|a| + |b| + |c|..] == d
  {
    var s := a + b + c + d;
    assert s == a + (b + (c + d));
    assert s[..|a|] == a;
    assert s[|a|..] == b + (c + d);
    assert s[|a|..][..|b|] == b;
    assert s[|a| + |b|..] == c + d;
    assert s[|a| + |b|..][..|c|] == c;
  }

  /** A SHA-1 digest (20 bytes) appears in the link as 40 lower-case
      hexadecimal digits right after the prefix, followed by the name field. */
  lemma Sha1MagnetLayout(infoHash: seq<byte>, name: string)
    requires |infoHash| == 20
    ensures var link := MagnetLink(infoHash, name);
      |link| == 64 + |name| && StartsWith(link, MagnetPrefix) &&
      (forall k :: 20 <= k < 60 ==> IsLowerHex(link[k])) &&
      link[60..64] == NameField && link[64..] == name
  {
    var link := MagnetLink(infoHash, name);
    var hex := Hex(infoHash);
    forall k | 20 <= k < 60 ensures IsLowerHex(link[k]) {
      assert link[k] == hex[k - 20];
    }
  }

  // --------------------------------------------------------------- .magnet file

  /** `read_magnet_file` (torrents.py:34-47): the file's text with surrounding
      whitespace removed, or None when the file cannot be read (`content` is
      None). */
  function ReadMagnetFile(content: Option<string>): Option<string> {
    match content
    case None => None
    case Some(text) => Some(Strip(text))
  }

  /** The link read from a `.magnet` file is its text minus only surrounding
      whitespace, and itself neither starts nor ends with whitespace. */
  lemma ReadMagnetFileTrimmed(content: Option<string>)
    ensures ReadMagnetFile(content).Some? <==> content.Some?
    ensures content.Some? ==>
      var link := ReadMagnetFile(content).value;
      var text := content.value;
      (exists i, j :: 0 <= i <= j <= |text| && link == text[i..j] && AllSpace(text[..i]) && AllSpace(text[j..])) &&
      (link != [] ==> !IsSpace(link[0]) && !IsSpace(link[|link| - 1]))
  {
    if content.Some? {
      StripShape(content.value);
    }
  }

  /** A file holding exactly what was read from it reads the same again. */
  lemma ReadMagnetFileStable(text: string)
    ensures ReadMagnetFile(ReadMagnetFile(Some(text))) == ReadMagnetFile(Some(text))
  {
    StripIdempotent(text);
  }
}
