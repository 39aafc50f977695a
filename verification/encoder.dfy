/** webpEncoder: the choice of decoder for the source image, and the write of
    the encoded artifact. The codecs themselves are an uninterpreted function. */
module Encoder {
  import opened GoStrings
  import opened Files

  /** The image decoder webpEncoder picks; NoDecoder leaves the image nil. */
  datatype Decoder = JpegDecoder | PngDecoder | NoDecoder

  /** The codec pipeline, decode then lossless WebP encode at the configured
      quality: whatever bytes end up in the buffer, for a decoder choice and
      the source file's bytes. An encoder error leaves whatever the buffer
      holds, which is still written. */
  type Encoding = (Decoder, Bytes) -> Bytes

  /** The decoder choice: by substring search over the whole source path, not
      over its extension, with "jpg"/"jpeg" looked for before "png". */
  function SelectDecoder(source: string): (d: Decoder)
    ensures d == JpegDecoder <==> Occurs("jpg", source) || Occurs("jpeg", source)
    ensures d == PngDecoder <==> !Occurs("jpg", source) && !Occurs("jpeg", source) && Occurs("png", source)
    ensures d == NoDecoder <==> !Occurs("jpg", source) && !Occurs("jpeg", source) && !Occurs("png", source)
  {
    if Contains(source, "jpg") || Contains(source, "jpeg") then JpegDecoder
    else if Contains(source, "png") then PngDecoder
    else NoDecoder
  }

  /** The choice looks at directories too: a PNG under a directory whose name
      mentions "jpg" is handed to the JPEG decoder. */
  lemma DirectoryNameSteersDecoder()
    ensures SelectDecoder("/srv/jpg/cat.png") == JpegDecoder
  {
    assert "/srv/jpg/cat.png"[5..8] == "jpg";
    assert OccursAt("jpg", "/srv/jpg/cat.png", 5);
  }

  /** webpEncoder(source, artifact): read the source (a read error gives no
      bytes), encode, and write the buffer to the artifact whether or not the
      encoder reported an error. Only the artifact's entry can change. */
  function WebpEncode(fs: FileSystem, source: string, artifact: string, encode: Encoding): (r: FileSystem)
    ensures r.dirs == fs.dirs && r.statErrors == fs.statErrors
    ensures forall q :: q != artifact ==> (q in r.files <==> q in fs.files)
    ensures forall q :: q != artifact && q in fs.files ==> r.files[q] == fs.files[q]
    ensures CanWrite(fs, artifact) ==>
      && artifact in r.files
      && r.files[artifact] == encode(SelectDecoder(source), ReadFile(fs, source))
    ensures !CanWrite(fs, artifact) ==> r == fs
  {
    var data := ReadFile(fs, source);
    WriteFile(fs, artifact, encode(SelectDecoder(source), data))
  }
}
