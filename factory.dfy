/** Construction of actors from their snapshot records. */
module Factory {
  import opened Geometry
  import opened Json
  import opened World
  import opened Wrappers

  /**
   * What the factory builds. A wall is built here from the record's position; the
   * other classes are decoded by their own fromJSON from the whole record.
   */
  datatype Made =
    | WallAt(pos: Vec2)
    | Decoded(kind: Kind, record: JsonObject)

  function KindOf(m: Made): Kind {
    match m
    case WallAt(_) => Wall
    case Decoded(k, _) => k
  }

  /** The class a tag names, if any. */
  function TagKind(t: string): (r: Option<Kind>)
    ensures forall k :: r == Some(k) <==> TypeId(k) == t
  {
    if t == TypeId(Wall) then Some(Wall)
    else if t == TypeId(Player) then Some(Player)
    else if t == TypeId(Mob) then Some(Mob)
    else if t == TypeId(DropBag) then Some(DropBag)
    else None
  }

  /** A record the factory reads without error: integer `x` and `y`, string `t`. */
  predicate WellFormed(record: JsonObject) {
    && "x" in record && record["x"].JInt?
    && "y" in record && record["y"].JInt?
    && "t" in record && record["t"].JStr?
  }

  /**
   * createMapActor: reads `x` and `y`, then dispatches on the tag `t`. A getter
   * failure is an error; an unknown tag builds nothing.
   */
  function CreateMapActor(record: JsonObject): (r: Result<Option<Made>>)
    ensures r.Ok? <==> WellFormed(record)
    ensures "x" !in record || "y" !in record ==> r.Err?
    ensures r.Ok? && r.value.Some? ==> TypeId(KindOf(r.value.value)) == record["t"].s
    ensures r.Ok? && r.value.None? ==> TagKind(record["t"].s) == None
    ensures WellFormed(record) && record["t"] == JStr(TypeId(Wall)) ==>
              r == Ok(Some(WallAt(Vec2(record["x"].n, record["y"].n))))
  {
    match GetInt(record, "x")
    case Err(e) => Err(e)
    case Ok(x) =>
      match GetInt(record, "y")
      case Err(e) => Err(e)
      case Ok(y) =>
        match GetString(record, "t")
        case Err(e) => Err(e)
        case Ok(t) =>
          match TagKind(t)
          case None => Ok(None)
          case Some(Wall) => Ok(Some(WallAt(Vec2(x, y))))
          case Some(k) => Ok(Some(Decoded(k, record)))
  }

  /** An unknown tag is skipped, not an error. */
  lemma UnknownTagYieldsNothing(record: JsonObject)
    requires WellFormed(record)
    requires forall k :: TypeId(k) != record["t"].s
    ensures CreateMapActor(record) == Ok(None)
  {
  }

  /** The coordinates are read first: a record without them fails whatever its tag. */
  lemma MissingCoordinatesFail(record: JsonObject)
    requires "x" !in record
    ensures CreateMapActor(record) == Err(MissingKey("x"))
  {
  }

  /** The tag alone decides the class of what is built. */
  lemma KindDeterminedByTag(r1: JsonObject, r2: JsonObject)
    requires WellFormed(r1) && WellFormed(r2) && r1["t"] == r2["t"]
    ensures CreateMapActor(r1).value.Some? <==> CreateMapActor(r2).value.Some?
    ensures CreateMapActor(r1).value.Some? ==>
      KindOf(CreateMapActor(r1).value.value) == KindOf(CreateMapActor(r2).value.value)
  {
  }

  /**
   * Round trip: the snapshot of an actor (toJSON) fed back to the factory builds the
   * same class; a wall comes back at the same position, and the other classes are
   * handed a record carrying that position.
   */
  lemma {:induction false} SnapshotRoundTrip(kind: Kind, pos: Vec2)
    ensures var r := CreateMapActor(Snapshot(kind, pos));
            && r.Ok? && r.value.Some? && KindOf(r.value.value) == kind
            && (kind == Wall ==> r.value.value == WallAt(pos))
            && (kind != Wall ==> r.value.value == Decoded(kind, Snapshot(kind, pos)))
  {
    var rec := Snapshot(kind, pos);
    assert rec["x"] == JInt(pos.x) && rec["y"] == JInt(pos.y) && rec["t"] == JStr(TypeId(kind));
    assert TagKind(TypeId(kind)) == Some(kind);
  }

  /** The same round trip read off a live actor. */
  lemma ActorRoundTrip(a: Actor)
    ensures var r := CreateMapActor(a.ToJson());
            && r.Ok? && r.value.Some? && KindOf(r.value.value) == a.kind
            && (a.kind == Wall ==> r.value.value == WallAt(a.pos))
  {
    SnapshotRoundTrip(a.kind, a.pos);
  }
}
