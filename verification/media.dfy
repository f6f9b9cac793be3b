/** `watchMedia`: validates the `vjs-media` descriptor and turns it into the
    `<source>` and `<track>` children handed to the directive's callback. */
module Media {
  import opened Outcomes

  /** A descriptor field as JavaScript tests it: falsy (missing, null, "",
      ...), an array (always truthy, even when empty), or some other truthy
      value. */
  datatype Field<+T> = Absent | NotArray | Array(items: seq<T>)

  /** A `sources` entry; None stands for a missing or falsy property. */
  datatype SourceEntry = SourceEntry(src: Option<string>, mediaType: Option<string>)

  /** A `tracks` entry. */
  datatype TrackEntry = TrackEntry(
    kind: Option<string>, labelText: Option<string>, src: Option<string>, srclang: Option<string>)

  datatype MediaDescriptor = MediaDescriptor(
    sources: Field<SourceEntry>, tracks: Field<TrackEntry>, poster: Option<string>)

  /** A generated child element with its attributes. */
  datatype MediaNode =
    | SourceNode(src: string, mediaType: string)
    | TrackNode(kind: string, labelText: string, src: string, srclang: string)

  /** The handler is called with `{element: div}`; the model keeps the
      div's children, in order. */
  type Container = seq<MediaNode>

  /** `value || ""`. */
  function Attr(v: Option<string>): (a: string)
    ensures v.Some? && v.value != "" ==> a == v.value
    ensures !(v.Some? && v.value != "") ==> a == ""
  {
    v.GetOr("")
  }

  function SourceNodes(ss: seq<SourceEntry>): (r: seq<MediaNode>)
    ensures |r| == |ss|
    ensures forall i :: 0 <= i < |ss| ==> r[i] == SourceNode(Attr(ss[i].src), Attr(ss[i].mediaType))
  {
    if ss == [] then []
    else [SourceNode(Attr(ss[0].src), Attr(ss[0].mediaType))] + SourceNodes(ss[1..])
  }

  function TrackNodes(ts: seq<TrackEntry>): (r: seq<MediaNode>)
    ensures |r| == |ts|
    ensures forall i :: 0 <= i < |ts| ==>
              r[i] == TrackNode(Attr(ts[i].kind), Attr(ts[i].labelText), Attr(ts[i].src), Attr(ts[i].srclang))
  {
    if ts == [] then []
    else [TrackNode(Attr(ts[0].kind), Attr(ts[0].labelText), Attr(ts[0].src), Attr(ts[0].srclang))] +
         TrackNodes(ts[1..])
  }

  /** The entries of a field that is iterated; a falsy field adds nothing. */
  function Items<T>(f: Field<T>): seq<T> {
    if f.Array? then f.items else []
  }

  /** `div` holds one source node per source entry, in order, followed by
      one track node per track entry, in order. */
  ghost predicate RendersDescriptor(d: MediaDescriptor, div: Container) {
    var ss, ts := Items(d.sources), Items(d.tracks);
    && |div| == |ss| + |ts|
    && (forall i :: 0 <= i < |ss| ==>
          div[i] == SourceNode(Attr(ss[i].src), Attr(ss[i].mediaType)))
    && (forall j :: 0 <= j < |ts| ==>
          div[|ss| + j] == TrackNode(Attr(ts[j].kind), Attr(ts[j].labelText), Attr(ts[j].src), Attr(ts[j].srclang)))
  }

  /** The descriptor passes validation: some field is given and neither is
      a non-array. Empty arrays pass. */
  predicate Valid(d: MediaDescriptor) {
    (d.sources.Array? || d.tracks.Array?) && !d.sources.NotArray? && !d.tracks.NotArray?
  }

  /** Runs `watchMedia` and returns the arguments of every call it makes to
      the handler, in order, or the error it throws. */
  function WatchMedia(media: Option<MediaDescriptor>): (r: Result<seq<Container>>)
    ensures media.None? ==> r == Ok([])
    ensures media.Some? ==> (r.Ok? <==> Valid(media.value))
    ensures media.Some? && media.value.sources.Absent? && media.value.tracks.Absent? ==>
              r == Err(NoSourcesOrTracks)
    ensures media.Some? && media.value.sources.NotArray? ==> r == Err(SourcesNotArray)
    ensures media.Some? && !media.value.sources.NotArray? && media.value.tracks.NotArray? ==>
              r == Err(TracksNotArray)
    ensures media.Some? && r.Ok? ==> |r.value| == 1 && RendersDescriptor(media.value, r.value[0])
  {
    match media
    case None => Ok([])
    case Some(d) =>
      if d.sources.Absent? && d.tracks.Absent? then Err(NoSourcesOrTracks)
      else if d.sources.NotArray? then Err(SourcesNotArray)
      else if d.tracks.NotArray? then Err(TracksNotArray)
      else Ok([SourceNodes(Items(d.sources)) + TrackNodes(Items(d.tracks))])
  }

  /** Empty arrays are accepted, although the error texts ask for at least
      one item: the handler then receives an empty container. */
  lemma EmptyArraysAccepted(poster: Option<string>)
    ensures WatchMedia(Some(MediaDescriptor(Array([]), Absent, poster))) == Ok([[]])
    ensures WatchMedia(Some(MediaDescriptor(Absent, Array([]), poster))) == Ok([[]])
    ensures WatchMedia(Some(MediaDescriptor(Array([]), Array([]), poster))) == Ok([[]])
  {
  }
}
