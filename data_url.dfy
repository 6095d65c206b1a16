/** `dataURLToBlob` of static/index.js: split a data URL (RFC 2397, section 3)
    into header and payload, take the MIME type from the header, decode the
    payload with `atob` and copy the decoded characters into a `Uint8Array`. */
module DataUrl {
  import opened Wrappers
  import opened JsString
  import opened Base64

  /** The `Blob` handed to the form upload: its octets and its `type`. */
  datatype Blob = Blob(bytes: seq<byte>, mimeType: string)

  /** What `dataURLToBlob` throws: `atob`'s DOMException, or the TypeError of
      calling `.split` on `undefined` when the header has no `:`. */
  datatype BlobError = InvalidCharacterError | TypeError

  /** `dataURL.split(",")[0]`: everything before the first `,`. */
  function Header(dataURL: string): (h: string)
    ensures Token(dataURL, 0, h, {','})
  {
    SplitFirstToken(dataURL, ',');
    Split(dataURL, ',')[0]
  }

  /** `dataURL.split(",")[1]`, `None` being `undefined`. There is a payload
      exactly when the URL has a `,`; it runs from just after the first `,`
      up to any second one. */
  function Payload(dataURL: string): (p: Option<string>)
    ensures p.Some? <==> ',' in dataURL
    ensures p.Some? ==> Token(dataURL, IndexOf(dataURL, ',') + 1, p.value, {','})
  {
    var parts := Split(dataURL, ',');
    if ',' in dataURL then
      SplitSecondToken(dataURL, ',');
      Some(parts[1])
    else
      assert |parts| == 1;
      None
  }

  /** The string `atob` sees: `undefined` converts to the text "undefined". */
  function AtobArgument(dataURL: string): (a: string)
    ensures ',' !in dataURL ==> a == "undefined"
    ensures ',' in dataURL ==> Token(dataURL, IndexOf(dataURL, ',') + 1, a, {','})
  {
    match Payload(dataURL)
    case None => "undefined"
    case Some(p) => p
  }

  /** `header.split(":")[1].split(";")[0]`, `None` being the TypeError.
      The MIME string exists exactly when the header has a `:`, and it is the
      text after the first `:` up to the next `;` or `:` (or the end). */
  function MimeString(header: string): (m: Option<string>)
    ensures m.Some? <==> ':' in header
    ensures m.Some? ==> Token(header, IndexOf(header, ':') + 1, m.value, {';', ':'})
  {
    var parts := Split(header, ':');
    if ':' in header then
      MimeField(header);
      Some(Split(parts[1], ';')[0])
    else
      assert |parts| == 1;
      None
  }

  /** The nested split picks the run after the first `:` up to a `;` or `:`. */
  lemma MimeField(header: string)
    requires ':' in header
    ensures |Split(header, ':')| >= 2
    ensures Token(header, IndexOf(header, ':') + 1, Split(Split(header, ':')[1], ';')[0], {';', ':'})
  {
    SplitSecondToken(header, ':');
    var field := Split(header, ':')[1];
    SplitFirstToken(field, ';');
    TokenWithin(header, IndexOf(header, ':') + 1, field, Split(field, ';')[0], ':', ';');
  }

  /** ECMAScript ToUint8 of an integer: the value modulo 2^8, as a
      `Uint8Array` element store performs it. */
  function ToUint8(n: int): (b: byte)
    ensures 0 <= n < 256 ==> b as int == n
    ensures (b as int - n) % 256 == 0
  {
    (n % 256) as byte
  }

  predicate IsPrintableAscii(c: char)
  {
    0x20 <= c as int <= 0x7E
  }

  function AsciiLower(c: char): char
  {
    if 'A' <= c <= 'Z' then (c as int + 32) as char else c
  }

  /** The `type` option of the `Blob` constructor (File API): a type with any
      character outside U+0020..U+007E becomes "", any other is lower-cased. */
  function BlobType(t: string): (r: string)
    ensures r == "" || |r| == |t|
    ensures forall k :: 0 <= k < |r| ==> IsPrintableAscii(r[k]) && !('A' <= r[k] <= 'Z')
    ensures forall k :: 0 <= k < |r| ==>
      r[k] == t[k] || ('A' <= t[k] <= 'Z' && r[k] as int == t[k] as int + 32)
  {
    if exists k :: 0 <= k < |t| && !IsPrintableAscii(t[k]) then ""
    else seq(|t|, k requires 0 <= k < |t| => AsciiLower(t[k]))
  }

  /** What `dataURLToBlob(dataURL)` returns or throws. `atob` runs first
      (line 109), so its failure wins over a header without `:`. */
  function BlobOf(dataURL: string): (r: Result<Blob, BlobError>)
    ensures Atob(AtobArgument(dataURL)).None? ==> r == Failure(InvalidCharacterError)
    ensures Atob(AtobArgument(dataURL)).Some? && MimeString(Header(dataURL)).None? ==>
      r == Failure(TypeError)
    ensures r.Success? <==>
      Atob(AtobArgument(dataURL)).Some? && MimeString(Header(dataURL)).Some?
    ensures r.Success? ==>
      var byteString := Atob(AtobArgument(dataURL)).value;
      && |r.value.bytes| == |byteString|
      && (forall i :: 0 <= i < |byteString| ==> r.value.bytes[i] as int == byteString[i] as int)
      && r.value.bytes == ForgivingDecode(AtobArgument(dataURL)).value
      && r.value.mimeType == BlobType(MimeString(Header(dataURL)).value)
  {
    match Atob(AtobArgument(dataURL))
    case None => Failure(InvalidCharacterError)
    case Some(byteString) =>
      match MimeString(Header(dataURL))
      case None => Failure(TypeError)
      case Some(mime) =>
        Success(Blob(seq(|byteString|, i requires 0 <= i < |byteString| => ToUint8(byteString[i] as int)),
                     BlobType(mime)))
  }

  /** `dataURLToBlob`: the octets are copied one by one into a fresh array. */
  method DataURLToBlob(dataURL: string) returns (r: Result<Blob, BlobError>)
    ensures r == BlobOf(dataURL)
  {
    var decoded := Atob(AtobArgument(dataURL));
    if decoded.None? {
      return Failure(InvalidCharacterError);
    }
    var byteString := decoded.value;
    var mimeString := MimeString(Header(dataURL));
    if mimeString.None? {
      return Failure(TypeError);
    }
    var uint8Array := new byte[|byteString|];
    for i := 0 to |byteString|
      invariant forall k :: 0 <= k < i ==> uint8Array[k] == ToUint8(byteString[k] as int)
    {
      uint8Array[i] := ToUint8(byteString[i] as int);
    }
    assert uint8Array[..] ==
      seq(|byteString|, i requires 0 <= i < |byteString| => ToUint8(byteString[i] as int));
    return Success(Blob(uint8Array[..], BlobType(mimeString.value)));
  }

  // ---- What the split and the MIME extraction pick out of the URL ----

  /** A URL without `,` makes `atob` throw. */
  lemma NoCommaThrows(dataURL: string)
    requires ',' !in dataURL
    ensures BlobOf(dataURL) == Failure(InvalidCharacterError)
  {
    AtobUndefined();
  }

  /** The characterization is exact: any token at that place is the MIME string. */
  lemma MimeTokenUnique(header: string, m: string)
    requires ':' in header
    ensures MimeString(header) == Some(m) <==>
      Token(header, IndexOf(header, ':') + 1, m, {';', ':'})
  {
    if Token(header, IndexOf(header, ':') + 1, m, {';', ':'}) {
      TokenUnique(header, IndexOf(header, ':') + 1, m, MimeString(header).value, {';', ':'});
    }
  }

  /** Header and payload of a URL with exactly one `,`. */
  lemma OneComma(header: string, payload: string)
    requires ',' !in header && ',' !in payload
    ensures Header(header + [','] + payload) == header
    ensures AtobArgument(header + [','] + payload) == payload
  {
    assert header + [','] + payload == Join([header, payload], ',');
    SplitJoin([header, payload], ',');
  }

  /** A base64 data URL header "data:<mime>;base64" names <mime>. */
  lemma Base64HeaderMime(mime: string)
    requires ':' !in mime && ';' !in mime
    ensures MimeString("data:" + mime + ";base64") == Some(mime)
  {
    var field := mime + [';'] + "base64";
    assert "data:" + mime + ";base64" == "data" + [':'] + field;
    SplitAt("data", field, ':');
    assert ':' !in field;
    SplitAt(mime, "base64", ';');
  }

  /** A type passes the Blob constructor unchanged exactly when it is
      printable lower-case ASCII. */
  lemma BlobTypeFixedPoints(t: string)
    ensures BlobType(t) == t <==>
      forall k :: 0 <= k < |t| ==> IsPrintableAscii(t[k]) && !('A' <= t[k] <= 'Z')
  {
    if BlobType(t) == t {
      assert forall k :: 0 <= k < |t| ==> BlobType(t)[k] == t[k];
    }
  }

  /** A type already in printable lower-case ASCII is kept as it is. */
  lemma BlobTypeKeepsLowerCase(t: string)
    requires forall k :: 0 <= k < |t| ==> IsPrintableAscii(t[k]) && !('A' <= t[k] <= 'Z')
    ensures BlobType(t) == t
  {
    BlobTypeFixedPoints(t);
  }

  /** The type is dropped exactly when some character is not printable ASCII
      (or there was none to begin with). */
  lemma BlobTypeEmpty(t: string)
    ensures BlobType(t) == "" <==> t == "" || exists k :: 0 <= k < |t| && !IsPrintableAscii(t[k])
  {
  }

  /** Normalising a type twice is normalising it once. */
  lemma BlobTypeIdempotent(t: string)
    ensures BlobType(BlobType(t)) == BlobType(t)
  {
    BlobTypeFixedPoints(BlobType(t));
  }

  /** What `canvas.toDataURL(type)` produces for a plain lower-case MIME type
      comes back as the encoded octets with that type. */
  lemma Base64DataUrlRoundTrip(mime: string, data: seq<byte>)
    requires ',' !in mime && ':' !in mime && ';' !in mime
    requires forall k :: 0 <= k < |mime| ==> IsPrintableAscii(mime[k]) && !('A' <= mime[k] <= 'Z')
    ensures BlobOf("data:" + mime + ";base64," + Encode(data)) == Success(Blob(data, mime))
  {
    var e := Encode(data);
    EncodedCharacters(data);
    var header := "data:" + mime + ";base64";
    var url := header + [','] + e;
    assert ',' !in header;
    assert "data:" + mime + ";base64," + e == url;
    OneComma(header, e);
    Base64HeaderMime(mime);
    DecodeEncode(data);
    assert Atob(AtobArgument(url)).Some?;
    BlobTypeKeepsLowerCase(mime);
    var r := BlobOf(url);
    assert r.Success?;
    assert r.value.bytes == data;
    assert r.value.mimeType == mime;
  }
}
