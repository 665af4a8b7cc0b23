/** spacelab_decoder/link.py: the configuration of one communication link.
    Every field has a setter and a getter; only the direction is checked,
    and it is stored in lower case. */
module Link {
  import opened Options
  import opened Text

  /** The attributes of a `Link`. */
  datatype Field =
    | Id | Name | Direction | Frequency | Modulation | Baudrate
    | Preamble | SyncWord | LinkProtocol | NetworkProtocol

  /** What a field holds: a string, an integer or a list of integers. */
  datatype Value = Str(s: string) | Number(n: int) | Numbers(xs: seq<int>)

  /** The kind of value each field holds, as the docstrings give it. */
  predicate Fits(f: Field, v: Value)
  {
    match f
    case Frequency | Baudrate => v.Number?
    case Preamble | SyncWord => v.Numbers?
    case _ => v.Str?
  }

  /** The value `str()`, `int()` or `list()` gives each field. */
  function Empty(f: Field): (v: Value)
    ensures Fits(f, v)
  {
    match f
    case Frequency | Baudrate => Number(0)
    case Preamble | SyncWord => Numbers([])
    case _ => Str("")
  }

  datatype Link = Link(id: string, name: string, direction: string, frequency: int,
                       modulation: string, baudrate: int, preamble: seq<int>, syncWord: seq<int>,
                       protocolLink: string, protocolNetwork: string)

  /** The ValueError `set_direction` raises. */
  datatype LinkError = InvalidDirection

  /** The getters `get_id` ... `get_network_protocol`. */
  function Get(l: Link, f: Field): (v: Value)
    ensures Fits(f, v)
  {
    match f
    case Id => Str(l.id)
    case Name => Str(l.name)
    case Direction => Str(l.direction)
    case Frequency => Number(l.frequency)
    case Modulation => Str(l.modulation)
    case Baudrate => Number(l.baudrate)
    case Preamble => Numbers(l.preamble)
    case SyncWord => Numbers(l.syncWord)
    case LinkProtocol => Str(l.protocolLink)
    case NetworkProtocol => Str(l.protocolNetwork)
  }

  /** `Link()`: every field starts empty. */
  function New(): (l: Link)
    ensures forall f: Field :: Get(l, f) == Empty(f)
  {
    Link("", "", "", 0, "", 0, [], [], "", "")
  }

  /** The unchecked setters (every one but `set_direction`): the getter of
      the field set returns the new value and every other getter is as
      before. */
  function Set(l: Link, f: Field, v: Value): (r: Link)
    requires f != Direction && Fits(f, v)
    ensures Get(r, f) == v
    ensures forall g: Field | g != f :: Get(r, g) == Get(l, g)
  {
    match f
    case Id => l.(id := v.s)
    case Name => l.(name := v.s)
    case Frequency => l.(frequency := v.n)
    case Modulation => l.(modulation := v.s)
    case Baudrate => l.(baudrate := v.n)
    case Preamble => l.(preamble := v.xs)
    case SyncWord => l.(syncWord := v.xs)
    case LinkProtocol => l.(protocolLink := v.s)
    case NetworkProtocol => l.(protocolNetwork := v.s)
  }

  /** `set_direction`: the lower-cased argument is stored when it is "up"
      or "down"; anything else raises. */
  function SetDirection(l: Link, dir: string): (r: Result<Link, LinkError>)
    ensures r.Ok? ==> Get(r.value, Direction) == Str(Lower(dir))
    ensures r.Ok? ==> forall g: Field | g != Direction :: Get(r.value, g) == Get(l, g)
  {
    var d := Lower(dir);
    if d == "up" || d == "down" then Ok(l.(direction := d)) else Err(InvalidDirection)
  }

  /** `set_direction` accepts exactly "up" and "down" written in any mix of
      cases, and the stored direction is then the lower-case word. */
  lemma SetDirectionAccepts(l: Link, dir: string)
    ensures SetDirection(l, dir).Ok? <==> SpellsIgnoringCase(dir, "up") || SpellsIgnoringCase(dir, "down")
    ensures SetDirection(l, dir).Ok? ==>
              Get(SetDirection(l, dir).value, Direction) == Str(if |dir| == 2 then "up" else "down")
  {
    LowerMatchesIff(dir, "up");
    LowerMatchesIff(dir, "down");
  }

  /** Setting a field twice keeps the second value, and setting two
      different fields commutes. */
  lemma SetSet(l: Link, f: Field, g: Field, v: Value, w: Value)
    requires f != Direction && g != Direction && Fits(f, v) && Fits(g, w)
    ensures f == g ==> Set(Set(l, f, v), g, w) == Set(l, g, w)
    ensures f != g ==> Set(Set(l, f, v), g, w) == Set(Set(l, g, w), f, v)
  {
  }
}
