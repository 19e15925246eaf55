/** What a store keeps of an upload: both stores choose the form of the bytes the same way. */
module StoredForm {
  import opened Common

  /** Compression is opaque: `decode` may fail. */
  datatype Zstd = Zstd(encode: seq<Byte> -> seq<Byte>, decode: seq<Byte> -> Option<seq<Byte>>)

  ghost predicate LawfulZstd(z: Zstd) {
    forall b :: z.encode(b) != [] && z.decode(z.encode(b)) == Some(b)
  }

  const MIN_COMPRESSION_SIZE := 200

  /** An uploaded object; `body` is what its reader delivers, which may be shorter than declared. */
  datatype Upload = Upload(size: int, wireSize: int, isCompressed: bool, body: seq<Byte>)

  /** The entry's sizes and the bytes to store; the source picks the reader the same way. */
  datatype Form = Form(size: int, wireSize: int, compressed: bool, body: seq<Byte>)

  function Received(item: Upload): seq<Byte> {
    if item.size == 0 && item.wireSize == 0 then [] else item.body
  }

  predicate CompressesNow(item: Upload, compress: bool) {
    !item.isCompressed && compress && item.size >= MIN_COMPRESSION_SIZE
  }

  function FormForPut(item: Upload, compress: bool, z: Zstd): Option<Form> {
    if item.isCompressed && compress then
      Some(Form(item.size, item.wireSize, true, Received(item)))
    else if CompressesNow(item, compress) then
      var encoded := z.encode(Received(item));
      Some(Form(item.size, |encoded|, true, encoded))
    else if item.isCompressed && Received(item) != [] then
      match z.decode(Received(item))
      case Some(body) => Some(Form(item.size, 0, false, body))
      case None => None
    else
      Some(Form(item.size, 0, false, Received(item)))
  }

  function FormSize(form: Form): int {
    if form.wireSize > 0 then form.wireSize else form.size
  }

  /** A put goes through only if as many bytes arrived as the entry will claim. */
  function Admitted(item: Upload, compress: bool, z: Zstd): Option<Form> {
    match FormForPut(item, compress, z)
    case Some(form) => if |form.body| == FormSize(form) then Some(form) else None
    case None => None
  }

  /** The body that arrived is the one the uploader declared. */
  predicate ArrivedWhole(item: Upload, compress: bool, z: Zstd) {
    if item.isCompressed && compress then
      |Received(item)| == if item.wireSize > 0 then item.wireSize else item.size
    else if item.isCompressed && Received(item) != [] then
      z.decode(Received(item)).Some? && |z.decode(Received(item)).value| == item.size
    else
      |Received(item)| == item.size
  }

  /** A truncated upload is refused before it is indexed, except when the store compresses it
      itself: then the length that is checked is the one it has just measured. */
  lemma TruncationIsCaughtUnlessCompressedNow(item: Upload, compress: bool, z: Zstd)
    requires LawfulZstd(z)
    ensures !ArrivedWhole(item, compress, z) ==>
              (Admitted(item, compress, z).Some? <==> CompressesNow(item, compress))
    ensures ArrivedWhole(item, compress, z) ==> Admitted(item, compress, z).Some?
  {
  }

  /** 300 declared bytes of which one arrived. */
  lemma TruncatedUploadIsIndexed(z: Zstd)
    requires LawfulZstd(z)
    ensures var item := Upload(300, 0, false, [7]);
            !ArrivedWhole(item, true, z) && Admitted(item, true, z).Some?
  {
  }

  /** When the stored bytes are compressed, what sizes go with them, and when there are none to store. */
  lemma FormIs(item: Upload, compress: bool, z: Zstd)
    ensures FormForPut(item, compress, z).None? <==>
      !compress && item.isCompressed && item.body != [] && (item.size != 0 || item.wireSize != 0)
      && z.decode(item.body).None?
    ensures FormForPut(item, compress, z).Some? ==>
      var form := FormForPut(item, compress, z).value;
      && form.size == item.size && (form.compressed <==> compress && (item.isCompressed || item.size >= 200))
      && (!form.compressed ==> FormSize(form) == item.size)
      && (form.compressed && !item.isCompressed ==> form.wireSize == |form.body|)
      && (form.compressed && item.isCompressed ==> form.wireSize == item.wireSize)
  {
  }

  /** What is stored decodes back to what was uploaded. */
  function Content(form: Form, z: Zstd): Option<seq<Byte>> {
    if form.compressed then z.decode(form.body) else Some(form.body)
  }

  lemma StoredFormKeepsContent(item: Upload, compress: bool, z: Zstd)
    requires LawfulZstd(z) && Received(item) != []
    requires FormForPut(item, compress, z).Some?
    ensures Content(FormForPut(item, compress, z).value, z) ==
            if item.isCompressed then z.decode(Received(item)) else Some(Received(item))
  {
  }
}
