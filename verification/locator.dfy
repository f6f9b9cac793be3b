/** `getVidElement`: which video element a directive instance drives. */
module Locator {
  import opened Outcomes
  import opened Dom

  /** Checks, in order: the video.js global is present; in container mode,
      exactly one video lies below `root`; otherwise `root` is itself a video. */
  function GetVidElement(videojsLoaded: bool, root: Element, isContainer: bool): (r: Result<Element>)
    ensures !videojsLoaded ==> r == Err(VideoJsNotFound)
    ensures videojsLoaded && !isContainer ==>
              (r.Ok? <==> IsVideo(root)) && (r.Ok? ==> r.value == root) &&
              (r.Err? ==> r.error == NotAVideoTag)
    ensures videojsLoaded && isContainer ==>
              (r == Err(NoVideoInContainer) <==>
                 forall d :: d in Descendants(root) ==> !IsVideo(d))
    ensures videojsLoaded && isContainer ==>
              (r == Err(MultipleVideosInContainer) <==>
                 exists i, j :: 0 <= i < j < |Descendants(root)| &&
                   IsVideo(Descendants(root)[i]) && IsVideo(Descendants(root)[j]))
    ensures videojsLoaded && isContainer && r.Ok? ==>
              IsVideo(r.value) && r.value in Descendants(root) &&
              forall d :: d in Descendants(root) && IsVideo(d) ==> d == r.value
    ensures videojsLoaded && isContainer && r.Err? ==>
              r.error in {NoVideoInContainer, MultipleVideosInContainer}
    ensures r.Err? ==> r.error in {VideoJsNotFound, NoVideoInContainer, MultipleVideosInContainer, NotAVideoTag}
  {
    if !videojsLoaded then Err(VideoJsNotFound)
    else if isContainer then
      var videos := VideosBelow(root);
      TwoVideosIff(Descendants(root));
      if |videos| == 0 then
        Err(NoVideoInContainer)
      else if |videos| > 1 then
        assert videos[0] in videos;
        Err(MultipleVideosInContainer)
      else
        assert videos[0] in videos;
        assert forall d :: d in Descendants(root) && IsVideo(d) ==> d == videos[0] by {
          forall d | d in Descendants(root) && IsVideo(d) ensures d == videos[0] {
            assert d in videos;
          }
        }
        Ok(videos[0])
    else if IsVideo(root) then Ok(root)
    else Err(NotAVideoTag)
  }
}
