/** The small vocabulary types shared by the Skywing core: tag names and their
    kind markers, published values, the three-valued result of a reduce, and
    the neighbour triple of a reduce-group member. */
module Types {

  type TagID = string
  type MachineID = string

  const PublishTagMarker: char := 'p'
  const ReduceValueMarker: char := 'r'
  const ReduceGroupMarker: char := 'g'
  const PrivateTagMarker: char := 'x'

  /** The four kinds of tag, each named on the wire by a marker character. */
  datatype TagKind = Publish | ReduceValue | ReduceGroup | Private

  function Marker(k: TagKind): char
  {
    match k
    case Publish => PublishTagMarker
    case ReduceValue => ReduceValueMarker
    case ReduceGroup => ReduceGroupMarker
    case Private => PrivateTagMarker
  }

  /** Distinct kinds have distinct markers, so the marker identifies the kind. */
  lemma MarkersDistinct(a: TagKind, b: TagKind)
    ensures Marker(a) == Marker(b) <==> a == b
  {
  }

  /** A tag name is well formed when it is non-empty and starts with one of the
      four markers. */
  function TagNameOkay(tag: string): (ok: bool)
    ensures ok <==> |tag| > 0 && exists k: TagKind :: Marker(k) == tag[0]
  {
    if |tag| == 0 then false
    else
      var c := tag[0];
      if c == PublishTagMarker then assert Marker(Publish) == c; true
      else if c == ReduceValueMarker then assert Marker(ReduceValue) == c; true
      else if c == ReduceGroupMarker then assert Marker(ReduceGroup) == c; true
      else if c == PrivateTagMarker then assert Marker(Private) == c; true
      else false
  }

  /** One element of a published value: the index of its alternative in the list
      of publishable types, and an uninterpreted payload. */
  datatype PublishValue = PublishValue(typeIndex: nat, payload: int)

  /** A published value: one element per field of the tag's tuple type. */
  type Span = seq<PublishValue>

  /** What a reduce hands back: nothing (not the root), a disconnection, or the
      reduced value. */
  datatype ReduceResult<T> = NoValue | Disconnection | Value(value: T)
  {
    predicate ErrorOccurred() { Disconnection? }
    predicate HasValue() { Value? }
  }

  /** Exactly one of the three alternatives holds, and the two queries tell
      which. */
  lemma ReduceResultExclusive<T>(r: ReduceResult<T>)
    ensures r.ErrorOccurred() ==> !r.HasValue()
    ensures !r.ErrorOccurred() && !r.HasValue() <==> r == NoValue
  {
  }

  /** The parent, left child and right child tags of one reduce-group member;
      an empty tag means the neighbour is absent. */
  datatype ReduceGroupNeighbors = ReduceGroupNeighbors(tags: seq<TagID>)
  {
    predicate Valid() { |tags| == 3 }
    function Parent(): TagID requires Valid() { tags[0] }
    function LeftChild(): TagID requires Valid() { tags[1] }
    function RightChild(): TagID requires Valid() { tags[2] }
  }
}
