/** Failure-carrying values shared by every part of the model, and the
    errors the directive controller raises.

    Each `VjsError` constructor stands for one `throw new Error(...)` site of
    the controller; `Message` gives the text the controller throws. Two sites
    of the ratio parser share one message, so they share one constructor.
 */
module Outcomes {

  /** JavaScript's `undefined`/`null` versus a present value. */
  datatype Option<+T> = None | Some(value: T) {
    function GetOr(default: T): T {
      match this
      case Some(v) => v
      case None => default
    }
  }

  datatype VjsError =
    | VideoJsNotFound            // the video.js global is missing
    | NoVideoInContainer         // container mode, no descendant video
    | MultipleVideosInContainer  // container mode, more than one video
    | NotAVideoTag               // inline mode, the element is not a video
    | RatioFormat                // ratio is not "w/h" with numeric tokens
    | RatioZero                  // a ratio token is zero
    | NoTechElement              // no `.vjs-tech` element rendered yet
    | NoSourcesOrTracks          // media descriptor has neither field
    | SourcesNotArray            // `sources` is present but not an array
    | TracksNotArray             // `tracks` is present but not an array

  /** The text of the `Error` each failure throws. */
  function Message(e: VjsError): string {
    match e
    case VideoJsNotFound => "video.js was not found!"
    case NoVideoInContainer => "video tag must be defined within container directive!"
    case MultipleVideosInContainer => "only one video can be defined within the container directive!"
    case NotAVideoTag => "directive must be attached to a video tag!"
    case RatioFormat => "the ratio must either be \"wide\", \"standard\" or decimal values in the format of w/h"
    case RatioZero => "neither the width or height ratio can be zero!"
    case NoTechElement => "Failed to find instance of video-js class!"
    case NoSourcesOrTracks => "a sources and/or tracks element must be defined for the vjs-media attribute"
    case SourcesNotArray => "sources must be an array of objects with at least one item"
    case TracksNotArray => "tracks must be an array of objects with at least one item"
  }

  /** A thrown error (`Err`) or a returned value (`Ok`). */
  datatype Result<+T> = Ok(value: T) | Err(error: VjsError) {
    predicate IsFailure() {
      Err?
    }

    function PropagateFailure<U>(): Result<U>
      requires Err?
    {
      Err(error)
    }

    function Extract(): T
      requires Ok?
    {
      value
    }
  }
}
