# vjs-video controller logic in Dafny

vjs-video binds the video.js player to AngularJS through two directives,
`vjs-video` (on a `<video>` tag) and `vjs-video-container` (around one), that
share the `VjsVideoController`. This project models the pure logic of that
controller:

- **locating the video element** (`getVidElement`): the video.js global must
  be present; in container mode exactly one `<video>` must lie below the
  directive element; otherwise the element must itself be a video;
- **the aspect ratio** (`applyRatio`, `parseRatio`, `genContainerId`): alias
  resolution (`wide`, `standard`, missing), parsing `w/h` into a
  `padding-top` percentage with its two distinct errors, and the generated
  `vjs-container-<tech id>` id;
- **media rendering** (`watchMedia`): validation of the `vjs-media`
  descriptor and the ordered `<source>`/`<track>` children handed once to
  the directive's callback;
- **player initialisation** (`initVideoJs`): the poster override of the
  setup options, the soft null result without video.js, and the one-shot
  watcher that reports a changed media descriptor.

The DOM becomes an immutable element tree (`Dom.Element`), the descriptor a
datatype whose fields distinguish falsy, array and non-array values
(`Media.Field`), every thrown `Error` an `Outcomes.VjsError` inside a
`Result`, and the AngularJS digest loop a sequence of scope snapshots fed to
`Lifecycle.Run`. A snapshot (`Lifecycle.Scope`) holds the current contents of
every object and the object `vjs-media` is bound to, so a descriptor mutated
in place between two passes is modelled as such.

Modules: `Outcomes` (errors, `Option`, `Result`), `Dom`, `Locator`, `Text`
(split/join on a separator), `Decimal` (numeric ratio tokens), `Ratio`,
`Media`, `Lifecycle`.

Some modelling functions are specified only through lemmas about them:
`Decimal.IsNumericToken` and `Decimal.TokenValue` stand for `!isNaN(t)` and
`Number(t)` (described by `Decimal.ZeroIff`, `Decimal.PositiveIff` and the
`Ratio.ParseRatio…` lemmas), and `Lifecycle.Digest` (one digest pass over the
`$watch` and its listener) and `Lifecycle.Run` (a sequence of passes) are
described by `Lifecycle.WatcherFiresOnce`,
`Lifecycle.ChangeNeedsNewContents` and `Lifecycle.NewContentsReported`.
`Outcomes.Message` records the exact text each failure throws.

Two behaviours of the code are looser than they may look, and the model
follows the code in both:

- the error texts ask for `sources` and `tracks` arrays with at least one
  item, but the code only tests truthiness and `instanceof Array`, so empty
  arrays are accepted (`Media.EmptyArraysAccepted`);
- the media watch is a reference watch (`$scope.$watch` without deep
  comparison) whose listener then compares with `angular.equals`, not a
  value watch: mutating the descriptor in place is not seen at all, and
  binding another object reports nothing when its contents equal the old
  object's contents as they are at that pass
  (`Lifecycle.ChangeNeedsNewContents`).

## Model

| member | source | states |
|---|---|---|
| Locator.GetVidElement | app/scripts/directives/vjs.directive.js:17-43 | a missing video.js fails first; inline mode succeeds exactly on a `VIDEO` element and returns it; container mode fails with one error exactly when no descendant is a video, with another exactly when two positions hold videos, fails with no other error, and on success returns the only video descendant |
| Dom.Videos | app/scripts/directives/vjs.directive.js:26 | the collected elements are exactly the video elements of the input, never more of them than the input has |
| Dom.VideosAppend | app/scripts/directives/vjs.directive.js:26 | collecting videos distributes over concatenation, so every video occurrence is kept, in document order |
| Dom.TwoVideosIff | app/scripts/directives/vjs.directive.js:26-31 | more than one video is collected exactly when two distinct positions of the descendant list hold videos |
| Dom.QueryClass | app/scripts/directives/vjs.directive.js:71 | the first descendant carrying the class, none before it carrying it, or None exactly when no descendant carries it |
| Dom.FirstWithClass | app/scripts/directives/vjs.directive.js:71 | the first position carrying the class, with none before it, or None exactly when no element carries it |
| Text.Split | app/scripts/directives/vjs.directive.js:49 | a split has at least one piece and no piece contains the separator |
| Text.JoinSplit | app/scripts/directives/vjs.directive.js:49 | joining the pieces of a split with the separator gives back the string |
| Text.SplitJoin | app/scripts/directives/vjs.directive.js:49 | splitting a join of separator-free pieces gives back the pieces |
| Text.SplitLength | app/scripts/directives/vjs.directive.js:49-54 | the token count is the number of `/` plus one, so the count check fails exactly when `/` does not occur once |
| Text.TwoPieces | app/scripts/directives/vjs.directive.js:49-54 | two tokens exactly when a lone separator exists, and the tokens are then the text before and after it |
| Decimal.ZeroIff | app/scripts/directives/vjs.directive.js:64 | a numeric token's value is 0 exactly when all its digits are `0` (`-0`, `0.00` included) |
| Decimal.PositiveIff | app/scripts/directives/vjs.directive.js:68 | a numeric token is positive exactly when it has no minus sign and a non-zero digit |
| Decimal.NatTokenRoundTrip | app/scripts/directives/vjs.directive.js:59-68 | the decimal rendering of a natural number is a numeric token whose value is that number |
| Ratio.ResolveRatio | app/scripts/directives/vjs.directive.js:90-102 | a missing or empty ratio and `wide` become `16/9`, `standard` becomes `4/3`, anything else passes unchanged |
| Ratio.ParseRatio | app/scripts/directives/vjs.directive.js:48-69 | only the format and zero errors are raised, and a parsed percentage is never 0 |
| Ratio.ParseRatioFormatIff | app/scripts/directives/vjs.directive.js:49-61 | the format error is raised exactly when the ratio is not one `/` between two numeric tokens |
| Ratio.ParseRatioZeroIff | app/scripts/directives/vjs.directive.js:63-66 | the zero error is raised exactly when the ratio is well formed and one token has only zero digits, so the format check comes first |
| Ratio.ParseRatioValue | app/scripts/directives/vjs.directive.js:64-68 | a well-formed ratio with non-zero tokens parses to height over width times 100, positive when neither token is negative |
| Ratio.ParseRatioRoundTrip | app/scripts/directives/vjs.directive.js:48-69 | parsing `w/h` rendered from positive whole numbers gives `h / w * 100` |
| Ratio.AliasesAgree | app/scripts/directives/vjs.directive.js:90-106 | missing, empty, `wide` and `16/9` all give 56.25; `standard` and `4/3` both give 75 |
| Ratio.GenContainerId | app/scripts/directives/vjs.directive.js:70-85 | fails exactly when no descendant has class `vjs-tech`; otherwise the id is `vjs-container-` followed by the first such element's id (`null` when it has none) |
| Ratio.ApplyRatio | app/scripts/directives/vjs.directive.js:104-106 | a missing `vjs-tech` element is reported whatever the ratio and leaves the element alone; once an id is generated it is stamped on the element even if the ratio then fails; a rule results exactly when both steps succeed |
| Media.Attr | app/scripts/directives/vjs.directive.js:156-157 | `value \|\| ""`: a non-empty string is kept, a missing or empty one becomes `""` |
| Media.SourceNodes | app/scripts/directives/vjs.directive.js:153-160 | one source node per entry, in order, each missing attribute as `""` |
| Media.TrackNodes | app/scripts/directives/vjs.directive.js:162-171 | one track node per entry, in order, each missing attribute as `""` |
| Media.WatchMedia | app/scripts/directives/vjs.directive.js:123-176 | no descriptor means no handler call and no error; a descriptor is accepted exactly when it is valid, with the neither-field, sources and tracks errors in that order; an accepted one calls the handler exactly once with the sources' nodes then the tracks' nodes, `\|sources\| + \|tracks\|` in all |
| Media.EmptyArraysAccepted | app/scripts/directives/vjs.directive.js:137-148 | empty `sources` or `tracks` arrays pass validation and give one handler call with no children |
| Lifecycle.OverridePoster | app/scripts/directives/vjs.directive.js:189-192 | a truthy media poster becomes the `poster` option; every other option is unchanged; without one the options are unchanged |
| Lifecycle.WatcherFiresOnce | app/scripts/directives/vjs.directive.js:197-218 | over any sequence of digests the watcher emits nothing or one change report (preceded by a dispose in container mode), emits it exactly when some pass, after the first, sees `vjs-media` bound to another object whose contents differ from the old object's contents at that pass (or to an object where it was unbound), and is disarmed exactly when it has emitted |
| Lifecycle.ChangeNeedsNewContents | app/scripts/directives/vjs.directive.js:198-206 | a digest reports nothing and stays armed when `vjs-media` is still the same object (mutated or not) or an object whose contents equal the old object's current contents |
| Lifecycle.NewContentsReported | app/scripts/directives/vjs.directive.js:198-215 | an armed watcher past its first pass reports (with a dispose first in container mode) and deregisters when `vjs-media` becomes another object whose contents differ from the old object's current ones, or an object where it was unbound |
| Lifecycle.InitVideoJs | app/scripts/directives/vjs.directive.js:178-218 | without video.js it returns null whatever the media; otherwise it fails exactly as media rendering does, and on success the player gets the poster-overridden options, the media was rendered once if present, and an armed watcher is registered |
| Lifecycle.Mount | app/scripts/directives/vjs.directive.js:345-353 | locating errors come first (a missing video.js among them), so a mount never ends in the null result; once the video is located the mount is `initVideoJs` on that video, and a started player sits on a video element |

## Left out

- Ratio.ParseRatio: JavaScript's `isNaN`/`Number` coercion is approximated by plain decimal literals with an optional sign (`Decimal.IsNumericToken`), so `""`, all-whitespace, hexadecimal, exponent and `Infinity` tokens and tokens with surrounding spaces (`16 / 9` gives 56.25 in JavaScript), which JavaScript treats as numbers, are format errors here.
- Ratio.ParseRatio: the percentage is an exact `real`, not an IEEE double; its rendering into the CSS text is not modelled.
- Ratio.ApplyRatio: the `<style>` element, its CSS text and its insertion into the DOM are not modelled; `Ratio.StyleRule` records only the selector id and the padding.
- Lifecycle.DeepEquals: `angular.equals` is taken as equality of the descriptor datatype.
- Lifecycle.InitVideoJs: the setup object is modelled as a value, so the in-place write of `poster` into the caller's `vjs-setup` object (which persists even when rendering then throws) is not modelled.
- Lifecycle.Mount: the container directive's `width`/`height` = `auto` attributes on the video are not modelled.
- Construction of the video.js player, its ready callback (which calls `applyRatio` in container mode and emits `vjsVideoReady`) and `dispose()` on `$destroy`: they call into the video.js library, which is not part of this model; `Ratio.ApplyRatio` is modelled on its own.
- The directives' link functions: wrapping, cloning and recompiling the element, `$timeout`, `$scope.$emit`/`$on` and the handlers that move the generated children into the DOM are AngularJS lifecycle, not modelled beyond `Lifecycle.Mount`.
- Descriptor entries that are not objects (a `null` entry throws a `TypeError` in the code) and attribute values that are not strings are not modelled: entries are records of optional strings.
- Tag matching: `getElementsByTagName('video')` and the `nodeName === 'VIDEO'` test are both modelled by one predicate on the upper-case node name.
