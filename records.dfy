/** The serialised form of one index record (`SerializableMetadata`), as
    serde_json writes it on one line:
    `{"key":"..","integrity":".."|null,"time":N,"size":N,"metadata":V,"raw_metadata":null}`.
    The codec is written out here with its fields in serde's declaration
    order; the metadata value is carried as its own serialised JSON text. */
module Records {
  import opened Wrappers
  import opened Text

  /** A compact serialised JSON value. serde_json escapes control characters
      inside strings, so the text never holds a raw tab or newline. */
  type Json = s: string | '\t' !in s && '\n' !in s witness "null"

  const Null: Json := "null"

  /** One index line's payload. `integrity` is the printed integrity, or
      nothing for a deletion marker (a tombstone). */
  datatype Record = Record(key: string, integrity: Option<string>, time: nat, size: nat, metadata: Json)

  const KeyOpen: string := "{\"key\":\""
  const IntegrityField: string := ",\"integrity\":"
  const TimeField: string := ",\"time\":"
  const SizeField: string := ",\"size\":"
  const MetadataField: string := ",\"metadata\":"
  const Closing: string := ",\"raw_metadata\":null}"

  function OptString(o: Option<string>): (s: string)
    ensures '\t' !in s && '\n' !in s
  {
    match o
    case None => "null"
    case Some(v) => "\"" + Escape(v) + "\""
  }

  /** `serde_json::to_string`: the record on one line, with no tab and no
      newline, so that it fits the index's line format. */
  function Encode(r: Record): (s: string)
    ensures '\t' !in s && '\n' !in s
  {
    KeyOpen + (Escape(r.key) + "\"" + (IntegrityField + EncodeFields(r)))
  }

  /** The fields after the key, from the integrity value on. */
  function EncodeFields(r: Record): (s: string)
    ensures '\t' !in s && '\n' !in s
  {
    OptString(r.integrity) + (TimeField + EncodeNumbers(r))
  }

  function EncodeNumbers(r: Record): (s: string)
    ensures '\t' !in s && '\n' !in s
  {
    Decimal(r.time) + (SizeField + (Decimal(r.size) + (MetadataField + (r.metadata + Closing))))
  }

  /** The text after the literal prefix `lit`, if `s` starts with it. */
  function Expect(s: string, lit: string): Option<string> {
    if lit <= s then Some(s[|lit|..]) else None
  }

  lemma ExpectLiteral(lit: string, rest: string)
    ensures Expect(lit + rest, lit) == Some(rest)
  {
    assert lit <= lit + rest;
    assert (lit + rest)[|lit|..] == rest;
  }

  function DecodeOptString(s: string): Option<(Option<string>, string)> {
    if "null" <= s then Some((None, s[4..]))
    else
      match Expect(s, "\"")
      case None => None
      case Some(t) =>
        match ScanString(t)
        case None => None
        case Some((body, rest)) => Some((Some(body), rest))
  }

  /** The metadata value: everything up to the fixed closing text. */
  function DecodeMetadata(s: string): Option<Json> {
    if |s| >= |Closing| && s[|s| - |Closing|..] == Closing then
      var m := s[..|s| - |Closing|];
      if '\t' in m || '\n' in m then None else Some(m)
    else None
  }

  function DecodeNumbers(s: string): Option<(nat, nat, Json)> {
    match ScanNat(s)
    case None => None
    case Some((time, s1)) =>
      match Expect(s1, SizeField)
      case None => None
      case Some(s2) =>
        match ScanNat(s2)
        case None => None
        case Some((size, s3)) =>
          match Expect(s3, MetadataField)
          case None => None
          case Some(s4) =>
            match DecodeMetadata(s4)
            case None => None
            case Some(m) => Some((time, size, m))
  }

  /** `serde_json::from_str::<SerializableMetadata>`: the record a line
      holds, or nothing when the text is not a well-formed record. */
  function Decode(s: string): Option<Record> {
    match Expect(s, KeyOpen)
    case None => None
    case Some(s1) =>
      match ScanString(s1)
      case None => None
      case Some((key, s2)) =>
        match Expect(s2, IntegrityField)
        case None => None
        case Some(s3) =>
          match DecodeOptString(s3)
          case None => None
          case Some((integrity, s4)) =>
            match Expect(s4, TimeField)
            case None => None
            case Some(s5) =>
              match DecodeNumbers(s5)
              case None => None
              case Some((time, size, metadata)) => Some(Record(key, integrity, time, size, metadata))
  }

  lemma DecodeMetadataEncoded(m: Json)
    ensures DecodeMetadata(m + Closing) == Some(m)
  {
    var s := m + Closing;
    assert s[|s| - |Closing|..] == Closing;
    assert s[..|s| - |Closing|] == m;
  }

  lemma DecodeNumbersEncoded(r: Record)
    ensures DecodeNumbers(EncodeNumbers(r)) == Some((r.time, r.size, r.metadata))
  {
    var tail := SizeField + (Decimal(r.size) + (MetadataField + (r.metadata + Closing)));
    ScanDecimal(r.time, tail);
    ExpectLiteral(SizeField, Decimal(r.size) + (MetadataField + (r.metadata + Closing)));
    ScanDecimal(r.size, MetadataField + (r.metadata + Closing));
    ExpectLiteral(MetadataField, r.metadata + Closing);
    DecodeMetadataEncoded(r.metadata);
  }

  lemma DecodeOptStringEncoded(o: Option<string>, rest: string)
    requires rest != [] && rest[0] == ','
    ensures DecodeOptString(OptString(o) + rest) == Some((o, rest))
  {
    match o
    case None => DecodeNullEncoded(rest);
    case Some(v) => DecodeQuotedEncoded(v, rest);
  }

  lemma DecodeNullEncoded(rest: string)
    ensures DecodeOptString("null" + rest) == Some((None, rest))
  {
    var s := "null" + rest;
    assert "null" <= s;
    assert s[4..] == rest;
  }

  lemma DecodeQuotedEncoded(v: string, rest: string)
    requires rest != [] && rest[0] == ','
    ensures DecodeOptString("\"" + Escape(v) + "\"" + rest) == Some((Some(v), rest))
  {
    var s := "\"" + Escape(v) + "\"" + rest;
    assert s[0] == '"';
    assert !("null" <= s);
    assert s == "\"" + (Escape(v) + "\"" + rest);
    ExpectLiteral("\"", Escape(v) + "\"" + rest);
    ScanEscaped(v, rest);
  }

  /** Serialising a record and reading it back gives the record. */
  lemma DecodeEncode(r: Record)
    ensures Decode(Encode(r)) == Some(r)
  {
    var fields := EncodeFields(r);
    ExpectLiteral(KeyOpen, Escape(r.key) + "\"" + (IntegrityField + fields));
    ScanEscaped(r.key, IntegrityField + fields);
    ExpectLiteral(IntegrityField, fields);
    DecodeOptStringEncoded(r.integrity, TimeField + EncodeNumbers(r));
    ExpectLiteral(TimeField, EncodeNumbers(r));
    DecodeNumbersEncoded(r);
  }
}
