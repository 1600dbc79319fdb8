/** The JSON form of a snippet: what JsonSerializer.Serialize writes for the record's
    runtime type, and DeserializeSnippet of Services/CodeSnippetService.cs, which picks the
    subclass from the properties present. A document is modelled as the map from property
    name to value; the text layout (indentation, property order) is not modelled. */
module SnippetJson {
  import opened Wrappers
  import opened CodeSnippets

  /** A property value. A DateTime is written as an ISO 8601 string; JDate stands for such a
      string, and carries the instant it denotes, only where it is the value of a DateTime
      property (CreationTimestamp, ExpirationTime). Any string value of another property,
      including one that reads like a date, is a JString. JOther is any other value (a
      boolean, an array, an object, a number with a fraction). */
  datatype JsonValue = JNull | JString(text: string) | JNumber(number: int) | JDate(ticks: int) | JOther

  /** A parsed file whose root is an object, or a file JsonDocument.Parse rejects (or whose
      root is not an object, on which TryGetProperty throws). */
  datatype Document = Object(fields: map<string, JsonValue>) | Malformed

  const IdField: string := "ID"
  const ContentField: string := "Content"
  const NameField: string := "Name"
  const CreationTimestampField: string := "CreationTimestamp"
  const TypeField: string := "Type"
  const ExpirationTimeField: string := "ExpirationTime"
  const ViewCounterField: string := "ViewCounter"

  function TextValue(t: Text): JsonValue {
    match t
    case None => JNull
    case Some(s) => JString(s)
  }

  /** JsonSerializer.Serialize(s, s.GetType()): every public property of the runtime type,
      null strings as JSON null. */
  function Encode(s: Snippet): (d: Document)
    ensures d.Object?
    ensures TypeField in d.fields && d.fields[TypeField] == TextValue(s.typeTag)
    ensures s.Expiring? <==> ExpirationTimeField in d.fields
    ensures s.Expiring? <==> ViewCounterField in d.fields
  {
    var common := map[
      IdField := TextValue(s.id),
      ContentField := TextValue(s.content),
      NameField := TextValue(s.name),
      CreationTimestampField := JDate(s.creationTimestamp),
      TypeField := TextValue(s.typeTag)];
    match s
    case Basic(_, _, _, _, _) => Object(common)
    case Expiring(_, _, _, _, _, expiration, views) =>
      Object(common[ExpirationTimeField := JDate(expiration)][ViewCounterField := JNumber(views)])
  }

  /** A string property can be read when absent, null or a string. */
  predicate TextReadable(fields: map<string, JsonValue>, key: string) {
    key !in fields || fields[key].JNull? || fields[key].JString?
  }

  /** The value a readable string property gives: `initial` when absent, null from JSON null. */
  function TextOr(fields: map<string, JsonValue>, key: string, initial: Text): Text {
    if key !in fields then initial
    else if fields[key].JString? then Some(fields[key].text)
    else None
  }

  /** A DateTime property can be read when absent or a date in DateTime's range; null throws. */
  predicate InstantReadable(fields: map<string, JsonValue>, key: string) {
    key !in fields || (fields[key].JDate? && 0 <= fields[key].ticks <= MaxTicks)
  }

  function InstantOr(fields: map<string, JsonValue>, key: string, initial: Instant): Instant
    requires InstantReadable(fields, key)
  {
    if key !in fields then initial else fields[key].ticks
  }

  /** An int property can be read when absent or a number in int's range; null throws. */
  predicate Int32Readable(fields: map<string, JsonValue>, key: string) {
    key !in fields || (fields[key].JNumber? && -0x8000_0000 <= fields[key].number < 0x8000_0000)
  }

  function Int32Or(fields: map<string, JsonValue>, key: string, initial: Int32): Int32
    requires Int32Readable(fields, key)
  {
    if key !in fields then initial else fields[key].number
  }

  /** Every property of the target type that the document holds has a value of its type. */
  predicate Readable(fields: map<string, JsonValue>, expiring: bool) {
    && TextReadable(fields, IdField)
    && TextReadable(fields, ContentField)
    && TextReadable(fields, NameField)
    && InstantReadable(fields, CreationTimestampField)
    && TextReadable(fields, TypeField)
    && (expiring ==> InstantReadable(fields, ExpirationTimeField) && Int32Readable(fields, ViewCounterField))
  }

  /** JsonSerializer.Deserialize<T>(json) for the runtime type of `initial`: starts from a
      freshly constructed object and overwrites each property the document holds; other
      properties of the document are ignored, and a value of the wrong type throws. */
  function Populate(fields: map<string, JsonValue>, initial: Snippet): (r: Result<Snippet, Fault>)
    ensures r.Success? ==> r.value.Expiring? == initial.Expiring?
  {
    if !Readable(fields, initial.Expiring?) then Failure(JsonException)
    else
      var id := TextOr(fields, IdField, initial.id);
      var content := TextOr(fields, ContentField, initial.content);
      var name := TextOr(fields, NameField, initial.name);
      var created := InstantOr(fields, CreationTimestampField, initial.creationTimestamp);
      var tag := TextOr(fields, TypeField, initial.typeTag);
      match initial
      case Basic(_, _, _, _, _) => Success(Basic(id, content, name, created, tag))
      case Expiring(_, _, _, _, _, expiration, views) =>
        Success(Expiring(id, content, name, created, tag,
          InstantOr(fields, ExpirationTimeField, expiration), Int32Or(fields, ViewCounterField, views)))
  }

  /** True when the document carries one of the two properties only ExpiringSnippet has. */
  predicate HasExpiringProperty(fields: map<string, JsonValue>) {
    ExpirationTimeField in fields || ViewCounterField in fields
  }

  /** DeserializeSnippet: the subclass is chosen from the presence of ExpirationTime or
      ViewCounter alone; the Type property is read as plain data and never consulted. */
  function DeserializeSnippet(doc: Document): (r: Result<Snippet, Fault>)
    ensures doc.Malformed? ==> r == Failure(JsonException)
    ensures doc.Object? && r.Success? ==> (r.value.Expiring? <==> HasExpiringProperty(doc.fields))
  {
    match doc
    case Malformed => Failure(JsonException)
    case Object(fields) =>
      var hasExpirationTime := ExpirationTimeField in fields;
      var hasViewCounter := ViewCounterField in fields;
      if hasExpirationTime || hasViewCounter then Populate(fields, NewExpiring())
      else Populate(fields, NewBasic())
  }

  /** Writing a snippet and reading the file back yields the same snippet: same subclass,
      same properties, whatever its Type string says. */
  lemma DeserializeEncode(s: Snippet)
    ensures DeserializeSnippet(Encode(s)) == Success(s)
  {
  }

  /** The Type property never decides the subclass: setting it to any string or null, or
      removing it, changes neither whether decoding succeeds nor anything decoded but the
      `typeTag`. (A Type holding a non-string value makes decoding throw, as for any other
      string property.) */
  lemma TypeIsIgnored(fields: map<string, JsonValue>, tag: Text)
    ensures
      var withTag := DeserializeSnippet(Object(fields[TypeField := TextValue(tag)]));
      var without := DeserializeSnippet(Object(fields - {TypeField}));
      withTag.Success? == without.Success? &&
      (withTag.Success? ==> withTag.value == without.value.(typeTag := tag))
  {
  }

  /** Content and Name read as "N/A" when the document does not carry them. */
  lemma MissingTextDefaults(fields: map<string, JsonValue>)
    requires DeserializeSnippet(Object(fields)).Success?
    ensures ContentField !in fields ==> DeserializeSnippet(Object(fields)).value.content == Some(DefaultText)
    ensures NameField !in fields ==> DeserializeSnippet(Object(fields)).value.name == Some(DefaultText)
  {
  }
}
