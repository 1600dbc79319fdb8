/** The snippet records of Models/CodeSnippet.cs: an abstract base class with exactly two
    concrete subclasses, modelled as a datatype with one constructor per subclass. */
module CodeSnippets {
  import opened Wrappers

  /** DateTime.MaxValue.Ticks: the last representable instant, 9999-12-31 23:59:59.9999999. */
  const MaxTicks: int := 3_155_378_975_999_999_999

  /** DateTime.TicksPerMinute (a tick is 100 nanoseconds). */
  const TicksPerMinute: int := 600_000_000

  /** A DateTime, as its number of ticks since 0001-01-01; default(DateTime) is 0. */
  type Instant = t: int | 0 <= t <= MaxTicks

  /** A C# `int`. */
  type Int32 = x: int | -0x8000_0000 <= x < 0x8000_0000

  /** A C# `string` property, which may hold null (None). */
  type Text = Option<string>

  /** The initial value of the Content and Name properties. */
  const DefaultText: string := "N/A"

  /** The discriminator values the two subclasses are registered under. */
  const BasicTag: string := "Basic"
  const ExpiringTag: string := "Expiring"

  /** The exceptions the core lets propagate: a JSON document that cannot be read as a
      snippet, and a DateTime computation that leaves the representable range. */
  datatype Fault = JsonException | ArgumentOutOfRange

  /** A snippet is a BasicSnippet or an ExpiringSnippet and nothing else, since the base
      class is abstract. `typeTag` is the public `Type` property: an ordinary string the
      creator sets, not tied to the constructor. An expiring snippet adds exactly an
      expiration instant and a view counter, which may be zero or negative. */
  datatype Snippet =
    | Basic(id: Text, content: Text, name: Text, creationTimestamp: Instant, typeTag: Text)
    | Expiring(id: Text, content: Text, name: Text, creationTimestamp: Instant, typeTag: Text,
               expirationTime: Instant, viewCounter: Int32)

  /** `new BasicSnippet()`: every property at its initial value. */
  function NewBasic(): (s: Snippet)
    ensures s.Basic?
    ensures s.content == s.name == Some(DefaultText)
    ensures s.id == s.typeTag == None && s.creationTimestamp == 0
  {
    Basic(None, Some(DefaultText), Some(DefaultText), 0, None)
  }

  /** `new ExpiringSnippet()`: every property at its initial value. */
  function NewExpiring(): (s: Snippet)
    ensures s.Expiring?
    ensures s.content == s.name == Some(DefaultText)
    ensures s.id == s.typeTag == None && s.creationTimestamp == 0
    ensures s.expirationTime == 0 && s.viewCounter == 0
  {
    Expiring(None, Some(DefaultText), Some(DefaultText), 0, None, 0, 0)
  }

  /** The discriminator the base class registers for the snippet's runtime type. */
  function Discriminator(s: Snippet): (tag: string)
    ensures tag == BasicTag <==> s.Basic?
    ensures tag == ExpiringTag <==> s.Expiring?
  {
    if s.Basic? then BasicTag else ExpiringTag
  }
}
