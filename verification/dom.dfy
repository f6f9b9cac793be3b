/** Just enough of the DOM for the controller: an element tree with a node
    name, an optional `id` attribute, a class list and children, plus the two
    queries the controller makes of it (`getElementsByTagName('video')` and
    `querySelector('.vjs-tech')`), both over descendants in document order.
 */
module Dom {
  import opened Outcomes

  datatype Element = Element(
    nodeName: string,          // upper case for HTML elements, as the DOM reports it
    id: Option<string>,        // `getAttribute('id')`; None is JavaScript's null
    classes: seq<string>,
    children: seq<Element>)

  predicate IsVideo(e: Element) {
    e.nodeName == "VIDEO"
  }

  predicate HasClass(e: Element, c: string) {
    c in e.classes
  }

  /** The trees rooted at `cs`, flattened in document (pre-)order. */
  function Forest(cs: seq<Element>): (r: seq<Element>)
    decreases cs
  {
    if cs == [] then [] else [cs[0]] + Forest(cs[0].children) + Forest(cs[1..])
  }

  /** Every element strictly below `e`, in document order. */
  function Descendants(e: Element): seq<Element> {
    Forest(e.children)
  }

  /** The video elements of `s`, in the order they occur, each occurrence
      kept (`VideosAppend`). */
  function Videos(s: seq<Element>): (r: seq<Element>)
    ensures forall x :: x in r <==> x in s && IsVideo(x)
    ensures |r| <= |s|
  {
    if s == [] then []
    else if IsVideo(s[0]) then [s[0]] + Videos(s[1..])
    else Videos(s[1..])
  }

  /** Collecting distributes over concatenation, so every video occurrence
      is kept, in document order. */
  lemma {:induction false} VideosAppend(a: seq<Element>, b: seq<Element>)
    ensures Videos(a + b) == Videos(a) + Videos(b)
    decreases |a|
  {
    if a == [] {
      assert a + b == b;
    } else {
      assert (a + b)[0] == a[0];
      assert (a + b)[1..] == a[1..] + b;
      VideosAppend(a[1..], b);
    }
  }

  /** `getElementsByTagName('video')` on `e`. */
  function VideosBelow(e: Element): seq<Element> {
    Videos(Descendants(e))
  }

  /** Two or more videos were collected exactly when two distinct positions
      of `s` hold videos. */
  lemma TwoVideosIff(s: seq<Element>)
    ensures |Videos(s)| >= 2 <==>
            exists i, j :: 0 <= i < j < |s| && IsVideo(s[i]) && IsVideo(s[j])
  {
    if |Videos(s)| >= 2 {
      TwoVideosFound(s);
    }
    if exists i, j :: 0 <= i < j < |s| && IsVideo(s[i]) && IsVideo(s[j]) {
      var i, j :| 0 <= i < j < |s| && IsVideo(s[i]) && IsVideo(s[j]);
      TwoVideosCollected(s, i, j);
    }
  }

  lemma {:induction false} TwoVideosFound(s: seq<Element>)
    requires |Videos(s)| >= 2
    ensures exists i, j :: 0 <= i < j < |s| && IsVideo(s[i]) && IsVideo(s[j])
  {
    var t := s[1..];
    if IsVideo(s[0]) {
      assert Videos(s) == [s[0]] + Videos(t);
      assert Videos(s)[1] in Videos(t);
      var k :| 0 <= k < |t| && t[k] == Videos(s)[1];
      assert IsVideo(s[0]) && IsVideo(s[k + 1]);
    } else {
      assert Videos(s) == Videos(t);
      TwoVideosFound(t);
      var i, j :| 0 <= i < j < |t| && IsVideo(t[i]) && IsVideo(t[j]);
      assert IsVideo(s[i + 1]) && IsVideo(s[j + 1]);
    }
  }

  lemma {:induction false} TwoVideosCollected(s: seq<Element>, i: nat, j: nat)
    requires i < j < |s| && IsVideo(s[i]) && IsVideo(s[j])
    ensures |Videos(s)| >= 2
  {
    var t := s[1..];
    if i == 0 {
      assert Videos(s) == [s[0]] + Videos(t);
      assert t[j - 1] in Videos(t);
    } else {
      TwoVideosCollected(t, i - 1, j - 1);
      assert |Videos(t)| <= |Videos(s)|;
    }
  }

  /** The position of the first element of `s` that carries class `c`. */
  function FirstWithClass(s: seq<Element>, c: string): (r: Option<nat>)
    ensures r.Some? ==> r.value < |s| && HasClass(s[r.value], c)
    ensures r.Some? ==> forall i :: 0 <= i < r.value ==> !HasClass(s[i], c)
    ensures r.None? <==> forall i :: 0 <= i < |s| ==> !HasClass(s[i], c)
  {
    if s == [] then None
    else if HasClass(s[0], c) then Some(0)
    else match FirstWithClass(s[1..], c)
      case None => None
      case Some(k) => Some(k + 1)
  }

  /** `querySelector('.' + c)` on `e`: the first descendant with class `c`. */
  function QueryClass(e: Element, c: string): (r: Option<Element>)
    ensures r.None? <==> forall d :: d in Descendants(e) ==> !HasClass(d, c)
    ensures r.Some? ==>
              exists i :: 0 <= i < |Descendants(e)| && Descendants(e)[i] == r.value && HasClass(r.value, c) &&
                forall j :: 0 <= j < i ==> !HasClass(Descendants(e)[j], c)
  {
    match FirstWithClass(Descendants(e), c)
    case None => None
    case Some(k) => Some(Descendants(e)[k])
  }
}
