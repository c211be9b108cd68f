/** The validity rule of `FilterState` in filterstate.go. Go's comma-ok type
    assertion on a missing key and on a value of another dynamic type both
    report "absent", so a coordinate counts only when it is stored as a
    float; `position` blocks a record only when it is the boolean `false`. */
module FilterState {
  import opened Records

  const Latitude: string := "latitude"
  const Longitude: string := "longitude"
  const Position: string := "position"

  /** `attrs[key].(float64)` succeeds. */
  predicate HasFloat(attrs: map<string, AttrValue>, key: string) {
    key in attrs && attrs[key].Float?
  }

  /** `attrs["position"].(bool)` succeeds with `false`. */
  predicate PositionInvalid(attrs: map<string, AttrValue>) {
    Position in attrs && attrs[Position] == Bool(false)
  }

  /** The record is forwarded to the parent store. */
  predicate Accepts(v: Record) {
    && HasFloat(v.attributes, Latitude)
    && HasFloat(v.attributes, Longitude)
    && !PositionInvalid(v.attributes)
  }

  /** A coordinate stored under any tag other than float reads as missing, and
      the record is dropped whatever else it carries. */
  lemma WrongTypeIsMissing(v: Record, key: string, value: AttrValue)
    requires key == Latitude || key == Longitude
    requires !value.Float?
    ensures !Accepts(v.(attributes := v.attributes[key := value]))
  {
  }

  /** With both coordinates present as floats, `position` decides alone, and
      only the boolean `false` blocks: `true`, a missing key, or any other tag
      lets the record through. */
  lemma OnlyFalsePositionBlocks(v: Record, position: Option<AttrValue>)
    requires HasFloat(v.attributes, Latitude) && HasFloat(v.attributes, Longitude)
    ensures var attrs := match position
              case Some(p) => v.attributes[Position := p]
              case None => v.attributes - {Position};
            Accepts(v.(attributes := attrs)) <==> position != Some(Bool(false))
  {
  }

  /** What decides the rule is whether each coordinate is a float and whether
      `position` is the boolean `false`: any other attribute, the float
      payloads of the coordinates, and every field of the record other than
      its attributes play no part. */
  lemma DecidedByCoordinatesAndPosition(v: Record, k: string, x: AttrValue, coordinate: string,
                                        lat: real, id: string, status: string, changed: int, updated: int)
    requires k != Latitude && k != Longitude && k != Position
    requires coordinate == Latitude || coordinate == Longitude
    ensures Accepts(v.(attributes := v.attributes[k := x])) == Accepts(v)
    ensures HasFloat(v.attributes, coordinate) ==>
              Accepts(v.(attributes := v.attributes[coordinate := Float(lat)])) == Accepts(v)
    ensures Accepts(v.(entityId := id, status := status, lastChanged := changed, lastUpdated := updated))
              == Accepts(v)
  {
  }

  /** Four cases of the rule: float coordinates alone pass, no coordinates
      is dropped, coordinates with `position: false` are dropped, and
      coordinates with `position: true` pass. */
  lemma Examples(v: Record)
    ensures var coords := map[Latitude := Float(1.0), Longitude := Float(2.0)];
      && Accepts(v.(attributes := coords))
      && !Accepts(v.(attributes := map[]))
      && !Accepts(v.(attributes := coords[Position := Bool(false)]))
      && Accepts(v.(attributes := coords[Position := Bool(true)]))
  {
  }
}
