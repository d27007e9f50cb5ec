/**
 * The build manifest: one `Item` per input source, recording the source's
 * path, point count and bounds, whether it has been inserted, any error, and
 * the source's info.
 *
 * `source::Source`, `source::Info` and `Bounds` are defined elsewhere; only
 * the fields the manifest reads are modelled, and their values are copied
 * unchanged.
 */
module Manifest {
  import opened Bytes
  import opened Wrappers

  datatype Point = Point(x: real, y: real, z: real)

  /** An axis-aligned box, kept only to be copied. */
  datatype Bounds = Bounds(min: Point, max: Point)

  /** `source::Info`, reduced to the fields an item reads. */
  datatype Info = Info(points: uint64, bounds: Bounds)

  /** `source::Source`. */
  datatype Source = Source(path: string, info: Info)

  /** `manifest::Item`. */
  datatype Item = Item(
    path: string,
    points: uint64,
    bounds: Bounds,
    inserted: bool,
    error: string,
    info: Option<Info>)

  /** An item that has not been inserted and has no error recorded, but knows its source info. */
  predicate Pristine(item: Item) {
    !item.inserted && item.error == "" && item.info.Some?
  }

  /** The item's own point count and bounds agree with the info it carries. */
  predicate Consistent(item: Item) {
    item.info.Some? ==> item.points == item.info.value.points && item.bounds == item.info.value.bounds
  }

  /** The source an item was made from, if it still carries its info. */
  function SourceOf(item: Item): Option<Source> {
    if item.info.Some? then Some(Source(item.path, item.info.value)) else None
  }

  /** `Item(const source::Source&)`: a fresh item describing source `s`. */
  function ItemOf(s: Source): (item: Item)
    ensures Pristine(item) && Consistent(item)
    ensures SourceOf(item) == Some(s)
  {
    Item(s.path, s.info.points, s.info.bounds, false, "", Some(s.info))
  }

  /** The fresh item for `s` is the only pristine, consistent item whose source is `s`. */
  lemma ItemOfUnique(s: Source, item: Item)
    ensures item == ItemOf(s) <==> Pristine(item) && Consistent(item) && SourceOf(item) == Some(s)
  {
  }

  /** `manifest::create`: the items for `sources`, one per source, in order. */
  function Create(sources: seq<Source>): (items: seq<Item>)
    ensures |items| == |sources|
    ensures forall i :: 0 <= i < |sources| ==> items[i] == ItemOf(sources[i])
  {
    if sources == [] then [] else [ItemOf(sources[0])] + Create(sources[1..])
  }

  /** The sources a list of items was made from, or None if some item has lost its info. */
  function Sources(items: seq<Item>): Option<seq<Source>> {
    if items == [] then Some([])
    else match (SourceOf(items[0]), Sources(items[1..])) {
      case (Some(s), Some(rest)) => Some([s] + rest)
      case _ => None
    }
  }

  /** `create` loses nothing and keeps order: the sources can be read back from its items. */
  lemma {:induction false} SourcesCreate(sources: seq<Source>)
    ensures Sources(Create(sources)) == Some(sources)
  {
    if sources != [] {
      SourcesCreate(sources[1..]);
      var items := Create(sources);
      assert items[1..] == Create(sources[1..]);
      assert SourceOf(items[0]) == Some(sources[0]);
      assert [sources[0]] + sources[1..] == sources;
    }
  }

  /** Different source lists give different manifests. */
  lemma CreateInjective(a: seq<Source>, b: seq<Source>)
    ensures Create(a) == Create(b) <==> a == b
  {
  }

  /** Every item of a freshly created manifest is pristine and consistent. */
  lemma CreatedItemsFresh(sources: seq<Source>)
    ensures forall item :: item in Create(sources) ==> Pristine(item) && Consistent(item)
  {
  }

  /** Creating from a concatenation is concatenating the creations. */
  lemma CreateAppend(a: seq<Source>, b: seq<Source>)
    ensures Create(a + b) == Create(a) + Create(b)
  {
  }
}
