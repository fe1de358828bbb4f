# Self-presentation website: a verified model of its interactive components

This project models, in Dafny, the logic of a personal portfolio site built
with React and Next.js. It covers the shadow-stack utility, the ASCII donut
renderer, and the interactive components:

- the vertical tab list;
- the vertical timeline slider;
- the experience roadmap;
- the company accordion;
- the squared tile showcase;
- the isometric cube grid;
- the skills overview;
- the navigation bar.

Each component's state lives in a Dafny `class`, wherever the source keeps state in React hooks or in closure variables:

- `Donut.Renderer`;
- `VerticalTabs.Tabs`;
- `TimelineSlider.Slider`;
- `TimelineRoadmap.Roadmap`;
- `CompanyAccordion.Accordion`;
- `SquaredShowcase.Showcase`;
- `Navbar.Nav`.

Their event handlers are methods whose `ensures` state the new state. What the components compute from that state is modelled as functions: layout, labels, class strings, stacking order and colours. The properties the components rely on are proved as lemmas.

The modules, one per source file plus four shared ones:

| module | file | models |
|---|---|---|
| `Options`, `Strings`, `Arith` | options.dfy, strings.dfy, arith.dfy | `??` / optional values, `Array.prototype.join`, integer division facts |
| `ClassNames` | class_names.dfy | the `cx(...)` class-name helper shared by the roadmap and the accordion |
| `Shadow` | shadow.dfy | `src/utils/shadow.ts`: `clamp`, `hexToRgb`, `rgbToHex`, `makeShadowStack` |
| `Donut` | donut.dfy | `src/components/Donut.tsx`: buffers, depth test, shading, frame text, FPS gate |
| `VerticalTabs` | vertical_tabs.dfy | `src/components/VerticalTabs.tsx`: initial tab, `nextEnabled`, keyboard and click |
| `TimelineSlider` | timeline_slider.dfy | `src/components/TimelineVerticalSlider.tsx` |
| `TimelineRoadmap` | timeline_roadmap.dfy | `src/components/experience/TimelineRoadmap.tsx` |
| `CompanyAccordion` | company_accordion.dfy | `src/components/experience/CompanyAccordion.tsx` |
| `SquaredShowcase` | squared_showcase.dfy | `src/components/SquaredShowcase.tsx` |
| `IsoCubeGrid` | iso_cube_grid.dfy | `src/components/IsoCubeGrid.tsx` |
| `SkillsOverview` | skills_overview.dfy | `src/components/homepage/SkillsOverview.tsx` |
| `Navbar` | navbar.dfy | `src/components/Navbar.tsx` |

How JavaScript semantics are modelled:

- JavaScript numbers are `real` where the source computes with fractions, and `int`/`nat` where it indexes.
- `%` on possibly negative operands is modelled as JavaScript's truncating remainder (`VerticalTabs.TruncMod`).
- `a ?? b` and `x?.y` are `Option`.
- Three things the source calls but that are not modelled in detail become function-typed parameters:
  - `darkenHex` (`Shadow.Darken`);
  - the conversion of a number to text (`Shadow.NumberText`);
  - the trigonometric torus sweep (the Donut renderer's `sweep`).

## Model

| member | source | states |
|---|---|---|
| Shadow.Clamp | src/utils/shadow.ts:5 | the result lies in `[min, max]`; it is `v` inside the range, `min` below it and `max` above it |
| Shadow.Expand | src/utils/shadow.ts:9 | a 3-digit string becomes 6 digits; every other length is kept; hex digits stay hex digits |
| Shadow.HexToRgb | src/utils/shadow.ts:7-12 | for hex-digit input, each decoded channel is in 0..255 |
| Shadow.HashIsOptional | src/utils/shadow.ts:8 | at most one leading `#` is stripped, so `h` and `"#" + h` decode to the same colour |
| Shadow.ShortFormDoubles | src/utils/shadow.ts:8-10 | `#abc`, `abc`, `#aabbcc` and `aabbcc` all decode to the same channels |
| Shadow.Unpack | src/utils/shadow.ts:11 | the shifts and `& 255` masks recover r, g and b from `r*2^16 + g*2^8 + b` |
| Shadow.HexToRgbGroups | src/utils/shadow.ts:7-12 | a `#rgb`/`#rrggbb` colour decodes to the three two-digit groups of its 6-digit form |
| Shadow.Hex2OfByte | src/utils/shadow.ts:15 | for a channel value, `toHex` gives exactly two lowercase digits: high nibble, then low nibble |
| Shadow.RgbToHexFormat | src/utils/shadow.ts:14-17 | `rgbToHex` gives `#` plus six lowercase hex digits, and the three pairs parse back to r, g and b |
| Shadow.DecodeEncode | src/utils/shadow.ts:7-17 | round trip: `hexToRgb(rgbToHex(r, g, b))` gives back `(r, g, b)` for channels in 0..255 |
| Shadow.EncodeDecode | src/utils/shadow.ts:7-17 | round trip: `rgbToHex(hexToRgb(hex))` is `#` plus the lowercase 6-digit form of the input |
| Shadow.HardLayers | src/utils/shadow.ts:105-114 | exactly `steps` hard layers, layer `i` being the i-th loop iteration |
| Shadow.GlowLayers | src/utils/shadow.ts:119-128 | one glow layer per entry of `glows`, in order |
| Shadow.ShadowLayerCount | src/utils/shadow.ts:102-131 | the stack has `steps` hard layers, then one layer per glow if `includeGlows`, and nothing else; every hard layer comes before every glow |
| Shadow.HardLayerShape | src/utils/shadow.ts:105-113 | hard layer `i` is offset `startOffset + i*stepOffset` along `direction`, has zero blur, and uses `darkenHex(base, darkenPerStep*(i+1))` |
| Shadow.GlowLayerShape | src/utils/shadow.ts:117-128 | glow `k` uses the base colour's channels and the glow's alpha; its offset is along `direction`; its blur is 0 under `noBlur` and the glow's blur otherwise |
| Shadow.TextShadowSameLayers | src/utils/shadow.ts:110-126 | `asTextShadow` changes no layer: both template branches are identical |
| Shadow.LayerTexts | src/utils/shadow.ts:111-126 | one text piece per layer |
| Shadow.LayerTextsSnoc | src/utils/shadow.ts:113 | the pieces of one more layer are the old pieces plus that layer's piece, as `parts.push` builds them |
| Shadow.PushHardLayers | src/utils/shadow.ts:104-114 | the hard-layer loop pushes exactly one piece per step, in order: the texts of the `steps` hard layers |
| Shadow.PushGlows | src/utils/shadow.ts:119-128 | `glows.forEach` appends exactly the glow pieces, in order, to `parts` |
| Shadow.MakeShadowStack | src/utils/shadow.ts:83-132 | the loop's result is the layers' texts joined by ", " |
| Strings.JoinSnoc | src/utils/shadow.ts:131 | appending a part appends the separator and the part; nothing is added before the first part |
| Strings.JoinConcat | src/utils/shadow.ts:131 | joining a concatenation joins the two joins, with one separator when both are non-empty |
| Strings.JoinEmptyIff | src/utils/shadow.ts:131 | a join of non-empty parts is empty exactly when there are no parts |
| Donut.Dims | src/components/Donut.tsx:45-49 | the character grid is at least 24 by 16 |
| Donut.DimsFloor | src/components/Donut.tsx:45-49 | sizes from the minimum up are floored to whole characters; smaller ones are raised to 24 and 16 |
| Donut.RampReversedIsReverse | src/components/Donut.tsx:69-70 | the reversed ramp is the ramp back to front |
| Donut.RampFor | src/components/Donut.tsx:69-72 | the ramp in use has 12 glyphs and no blank, whichever colour scheme is active |
| Donut.ShadeIndex | src/components/Donut.tsx:155-156 | the shade index is always a valid ramp index |
| Donut.ShadeMonotone | src/components/Donut.tsx:155-156 | a brighter sample never gets an earlier ramp glyph |
| Donut.ShadeExtremes | src/components/Donut.tsx:155-156 | full light maps to the last glyph; light below one ramp step maps to the first |
| Donut.Glyph | src/components/Donut.tsx:155-157 | the glyph written is a ramp character and never the blank |
| Donut.TargetInRange | src/components/Donut.tsx:139-141 | a sample that passes the bounds test addresses a cell of the `w*h` buffers |
| Donut.Cleared | src/components/Donut.tsx:106-108 | clearing leaves depth 0 and a blank in every one of the `w*h` cells |
| Donut.Step | src/components/Donut.tsx:139-158 | one sample's bounds, light and depth tests keep both buffers at `w*h` cells |
| Donut.Fold | src/components/Donut.tsx:116-160 | drawing a sequence of samples keeps both buffers at `w*h` cells |
| Donut.StepWrites | src/components/Donut.tsx:153-157 | a lit, on-screen sample nearer than the cell's depth takes the cell over: its depth and its glyph |
| Donut.StepKeeps | src/components/Donut.tsx:139-153 | a sample that fails a test, or lands elsewhere, leaves the cell's outcome intact |
| Donut.RasterizeCell | src/components/Donut.tsx:106-158 | after a frame, each cell holds the maximum depth of the samples drawn on it, and shows the glyph of the first sample at that depth, or a blank when none was drawn; this holds in exact arithmetic, and with `Float32Array` storage equal depths can let the later sample win |
| Donut.FirstWriterWins | src/components/Donut.tsx:153 | with the strict `>` depth test, of two samples at equal depth the first one drawn stays, in exact arithmetic; with `Float32Array` storage equal depths can let the later sample win |
| Donut.SerializeSnoc | src/components/Donut.tsx:165-167 | each cell adds itself, then a newline exactly when it completes a row |
| Donut.SerializeIsLines | src/components/Donut.tsx:164-168 | the serialiser writes the grid line by line, a newline after each row of `w` cells |
| Donut.LinesLength | src/components/Donut.tsx:164-168 | an `h`-row grid gives `h*(w+1)` characters |
| Donut.SerializeChars | src/components/Donut.tsx:164-168 | every character of the text is a cell's glyph or a newline |
| Donut.RenderedFrame | src/components/Donut.tsx:106-168 | a rendered frame is `h` lines of `w` cells and a newline, each cell a blank or a ramp glyph |
| Donut.FrameInterval | src/components/Donut.tsx:75 | the interval lies in (0, 1000] milliseconds |
| Donut.FrameIntervalRate | src/components/Donut.tsx:75 | at `fps >= 1`, `fps` intervals make one second; below 1 fps, one frame a second |
| Donut.Renderer.constructor | src/components/Donut.tsx:45-76 | fresh buffers of the floored size, the ramp for the colour scheme, the FPS interval, angles and `last` at 0, running |
| Donut.Renderer.Clear | src/components/Donut.tsx:106-108 | the buffers become `Cleared(w*h)` |
| Donut.Renderer.Plot | src/components/Donut.tsx:139-158 | the buffers become `Step` of the old buffers and the sample |
| Donut.Renderer.Draw | src/components/Donut.tsx:116-160 | the buffers become the fold of the samples over the old buffers |
| Donut.Renderer.Compose | src/components/Donut.tsx:164-168 | the output text is `Serialize` of the glyph buffer |
| Donut.Renderer.Tick | src/components/Donut.tsx:97-179 | a callback renders iff the loop runs and a full interval has passed; the frame is the sweep drawn on cleared buffers and serialised, and the angles advance by `0.04*speed` and `0.02*speed`; otherwise nothing changes |
| Donut.Renderer.OnVisibility | src/components/Donut.tsx:79-85 | running follows visibility; becoming visible resets `last` to 0 |
| VerticalTabs.TruncMod | src/components/VerticalTabs.tsx:72 | JavaScript `%` keeps the dividend's sign; the result is in `[0, n)` for a non-negative dividend |
| VerticalTabs.ProbeForward | src/components/VerticalTabs.tsx:71-72 | forward probes from `from` in `[-1, len)` visit `from+1, from+2, ...`, wrapping once |
| VerticalTabs.ProbeBackward | src/components/VerticalTabs.tsx:71-72 | backward probes from `from` in `[0, len]` visit `from-1, from-2, ...`, wrapping once |
| VerticalTabs.ScanFirst | src/components/VerticalTabs.tsx:71-75 | the loop returns the first enabled probe, or `from` when every probe is disabled |
| VerticalTabs.NextForward | src/components/VerticalTabs.tsx:69-76 | moving down lands on the next enabled tab after `from`, wrapping to the first enabled tab |
| VerticalTabs.NextBackward | src/components/VerticalTabs.tsx:69-76 | moving up lands on the nearest enabled tab before `from`, wrapping to the last enabled tab |
| VerticalTabs.NextAllDisabled | src/components/VerticalTabs.tsx:75 | with every tab disabled, or none at all, `nextEnabled` returns `from` |
| VerticalTabs.NextEnabled | src/components/VerticalTabs.tsx:69-76 | the loop returns the index the probe specification names |
| VerticalTabs.HomeIsFirstEnabled | src/components/VerticalTabs.tsx:117-121 | Home focuses the first enabled tab |
| VerticalTabs.EndAsWrittenSkipsLast | src/components/VerticalTabs.tsx:123-127 | as written, End skips the last tab whenever an earlier tab is enabled; it lands on the last enabled tab before it |
| VerticalTabs.EndAsWrittenExample | src/components/VerticalTabs.tsx:123-127 | with three enabled tabs, End as written focuses tab 1; as intended it focuses tab 2 |
| VerticalTabs.EndIsLastEnabled | src/components/VerticalTabs.tsx:123-127 | End as intended focuses the last enabled tab |
| VerticalTabs.FindEnabledFrom | src/components/VerticalTabs.tsx:52 | the search returns -1 or an enabled index at or after both the start and `safe` |
| VerticalTabs.FindEnabledFromLeast | src/components/VerticalTabs.tsx:52 | `findIndex` returns the least such index, and -1 exactly when there is none |
| VerticalTabs.InitialActiveSpec | src/components/VerticalTabs.tsx:49-54 | the initial tab is the first enabled one at or after the clamped `initialIndex`, and 0 when there is none |
| VerticalTabs.SingleTabStop | src/components/VerticalTabs.tsx:100-176 | while `active` names a rendered tab, exactly that tab has `tabIndex` 0 and only its panel is not `hidden`; once the list has shrunk below `active`, no tab has `tabIndex` 0 and every panel is hidden |
| VerticalTabs.Tabs.constructor | src/components/VerticalTabs.tsx:49-54 | the initial `active` is `InitialActive`, which names a rendered tab (`Valid`), and no button has been focused |
| VerticalTabs.Tabs.SetItems | src/components/VerticalTabs.tsx:38-54 | a new `items` prop replaces the flags and keeps `active`, because the `useState` initialiser does not run again; `active` still names a tab exactly when it is below the new length |
| VerticalTabs.Tabs.FocusAt | src/components/VerticalTabs.tsx:64-67 | focus moves only to a rendered button |
| VerticalTabs.Tabs.Click | src/components/VerticalTabs.tsx:101 | a click selects the tab unless it is disabled; a click on an enabled tab makes `active` name a rendered tab, and a click on a disabled one keeps `Valid` |
| VerticalTabs.Tabs.KeyDown | src/components/VerticalTabs.tsx:102-135 | disabled tabs ignore keys; ArrowUp and ArrowDown focus `nextEnabled(i, -1)` and `nextEnabled(i, 1)`, Home focuses `nextEnabled(-1, 1)`, and End focuses the as-written `nextEnabled(items.length - 1, -1)`; Enter and Space select the tab; `Valid` is kept |
| TimelineSlider.MaxIndex | src/components/TimelineVerticalSlider.tsx:32 | the last index is `len - 1`, and 0 for an empty list |
| TimelineSlider.ClampIndex | src/components/TimelineVerticalSlider.tsx:36 | the clamped index is in `[0, max]`: `v` inside the range, 0 below, `max` above |
| TimelineSlider.ClampedInitialIsClamp | src/components/TimelineVerticalSlider.tsx:28 | the initial index is the same clamp applied to `initialIndex` |
| TimelineSlider.ProgressPct | src/components/TimelineVerticalSlider.tsx:57-60 | with a single item the fill is 0 |
| TimelineSlider.ProgressInRange | src/components/TimelineVerticalSlider.tsx:57-60 | for every index the slider can hold, the fill is 0..100 percent, and 100 at the last item |
| TimelineSlider.PosEnds | src/components/TimelineVerticalSlider.tsx:105 | item 0 sits at the bottom of the track and the last item at the top |
| TimelineSlider.FillMargin | src/components/TimelineVerticalSlider.tsx:105-109 | a dot's margin over the fill is `(index - i)` dot spacings |
| TimelineSlider.PassedWithTol | src/components/TimelineVerticalSlider.tsx:109-111 | with a tolerance below one spacing, a dot is passed exactly when it is below the selection |
| TimelineSlider.PassedIff | src/components/TimelineVerticalSlider.tsx:109-111 | with the tolerance scaled to the spacing, dot `i` is passed iff `i < index` |
| TimelineSlider.PassedAsWrittenIff | src/components/TimelineVerticalSlider.tsx:109-111 | the fixed 0.001 tolerance gives the same rule while there are fewer than 100000 spacings |
| TimelineSlider.PassedAsWrittenOvershoot | src/components/TimelineVerticalSlider.tsx:109-111 | at 100000 spacings, the dot just above the selection counts as passed |
| TimelineSlider.DotStates | src/components/TimelineVerticalSlider.tsx:101-111 | with the source's 0.001 tolerance and fewer than 100000 spacings, exactly the selected dot is active; the dots below it are passed and the ones above are idle |
| TimelineSlider.DotStateOvershoot | src/components/TimelineVerticalSlider.tsx:101-111 | with 100000 spacings and index 0, the source draws dot 1 as passed |
| TimelineSlider.DotStatesIntended | src/components/TimelineVerticalSlider.tsx:101-111 | with the spacing-scaled tolerance, the active/passed/idle split holds for every track length |
| TimelineSlider.ContentIndex | src/components/TimelineVerticalSlider.tsx:193-204 | an empty list shows the placeholder of line 62; otherwise the panel shows `items[index]` exactly when `index` is in range, and reading `.title` throws when it is not |
| TimelineSlider.ClampedIndexShows | src/components/TimelineVerticalSlider.tsx:34-41 | an index inside `[0, max]` never makes the panel throw; with items it shows `items[index]` |
| TimelineSlider.ShrinkThrowsExample | src/components/TimelineVerticalSlider.tsx:193-195 | three items at index 2 show item 2; the same index over one item throws |
| TimelineSlider.Slider.constructor | src/components/TimelineVerticalSlider.tsx:28-29 | the index starts at the clamped initial index, and nothing has been reported |
| TimelineSlider.Slider.SetItems | src/components/TimelineVerticalSlider.tsx:22-32 | a new `items` prop changes the length and keeps `index`, which `useState` never re-clamps; past the new last item the panel throws |
| TimelineSlider.Slider.SetItemsReclamped | src/components/TimelineVerticalSlider.tsx:22-32 | with the index re-clamped into the new list, the slider stays `Valid` and the panel never throws |
| TimelineSlider.Slider.SetIndex | src/components/TimelineVerticalSlider.tsx:34-41 | the clamped value is stored and that same value is reported to `onChange` |
| TimelineSlider.Slider.Prev | src/components/TimelineVerticalSlider.tsx:211-212 | one step down and one report, unless the button is disabled at index 0 |
| TimelineSlider.Slider.Next | src/components/TimelineVerticalSlider.tsx:224-225 | one step up and one report, unless the button is disabled at the last index |
| ClassNames.Kept | src/components/experience/TimelineRoadmap.tsx:43-45 | `filter(Boolean)` keeps only non-empty strings, never more than it is given |
| ClassNames.KeptConcat | src/components/experience/TimelineRoadmap.tsx:43-45 | filtering distributes over concatenation |
| ClassNames.CxConcat | src/components/experience/CompanyAccordion.tsx:96-98 | `cx` of `a + b` is `cx(a)`, a space, then `cx(b)`, with no stray space when either side is empty |
| ClassNames.CxDropsFalsy | src/components/experience/CompanyAccordion.tsx:96-98 | a falsy argument (`false`, `null`, `undefined`, `""`) anywhere changes nothing |
| ClassNames.CxSingle | src/components/experience/CompanyAccordion.tsx:96-98 | a single non-empty class comes back unchanged |
| ClassNames.CxNonEmpty | src/components/experience/CompanyAccordion.tsx:96-98 | one truthy argument makes the result non-empty |
| TimelineRoadmap.DotColorAgrees | src/components/experience/TimelineRoadmap.tsx:492-497 | the inline dot colour is accent A for accent cards and base 1 for the others, and it matches the tone's `dot` class colour |
| TimelineRoadmap.DarkAccentShare | src/components/experience/TimelineRoadmap.tsx:47-83 | dark and accent cards share text and badge classes, and differ in card and dot classes |
| TimelineRoadmap.Normalize | src/components/experience/TimelineRoadmap.tsx:114-121 | one normalised milestone per input, in order |
| TimelineRoadmap.NormalizeSpec | src/components/experience/TimelineRoadmap.tsx:114-121 | every other field is kept, as is an explicit side or tone; otherwise sides alternate from the left and position `3k+1` is dark, the rest light |
| TimelineRoadmap.NormalizeIdempotent | src/components/experience/TimelineRoadmap.tsx:114-121 | normalising twice is normalising once |
| TimelineRoadmap.ProgressFraction | src/components/experience/TimelineRoadmap.tsx:164-165 | the filled share of the line is in `[0, 1]` |
| TimelineRoadmap.ProgressExact | src/components/experience/TimelineRoadmap.tsx:164-165 | with the counter in range, the share is `visibleCount / len`, and 1 once every card is shown |
| TimelineRoadmap.ProgressMonotone | src/components/experience/TimelineRoadmap.tsx:164-165 | a higher counter never draws a shorter line |
| TimelineRoadmap.Roadmap.constructor | src/components/experience/TimelineRoadmap.tsx:100 | the visible counter starts at 0 |
| TimelineRoadmap.Roadmap.Reveal | src/components/experience/TimelineRoadmap.tsx:143 | the counter becomes `max(prev, i + 1)` and never decreases |
| TimelineRoadmap.Roadmap.Progress | src/components/experience/TimelineRoadmap.tsx:164-165 | the drawn share is in `[0, 1]` |
| TimelineRoadmap.NextIndex | src/components/experience/TimelineRoadmap.tsx:193-217 | only ArrowUp and ArrowDown move, and only with some cards; the target is a valid card |
| TimelineRoadmap.NextIndexSteps | src/components/experience/TimelineRoadmap.tsx:210-217 | with no card focused, Down goes to the first card and Up to the last; otherwise one step, stopping at the ends |
| TimelineRoadmap.DownThenUp | src/components/experience/TimelineRoadmap.tsx:210-217 | Down then Up returns to the starting card, except from the last card |
| CompanyAccordion.ExperiencesDistinct | src/components/experience/CompanyAccordion.tsx:16-112 | the five entries have distinct ids, and the default `"luxmed"` is one of them |
| CompanyAccordion.Toggled | src/components/experience/CompanyAccordion.tsx:114-116 | toggling the open entry closes everything; toggling any other entry opens exactly it |
| CompanyAccordion.ToggleOpensOne | src/components/experience/CompanyAccordion.tsx:114-148 | after a toggle, the entry is open iff it was closed, and every other entry is closed |
| CompanyAccordion.ToggleTwice | src/components/experience/CompanyAccordion.tsx:114-116 | two toggles restore the state when nothing or that entry was open |
| CompanyAccordion.ToggleTwiceOther | src/components/experience/CompanyAccordion.tsx:114-116 | with another entry open, two toggles leave every entry closed |
| CompanyAccordion.AtMostOneOpen | src/components/experience/CompanyAccordion.tsx:148 | with distinct ids, at most one entry is open |
| CompanyAccordion.Accordion.constructor | src/components/experience/CompanyAccordion.tsx:108-118 | the list is `EXPERIENCES`, and the open id is the given default or `"luxmed"` |
| CompanyAccordion.Accordion.Toggle | src/components/experience/CompanyAccordion.tsx:114-116 | the open id becomes the toggled one |
| CompanyAccordion.Accordion.Expanded | src/components/experience/CompanyAccordion.tsx:148-174 | each trigger's `aria-expanded` is whether its id is the open one |
| CompanyAccordion.DefaultExpandsFirst | src/components/experience/CompanyAccordion.tsx:108-112 | on first render, only the first entry is expanded |
| CompanyAccordion.ElementIdsDistinct | src/components/experience/CompanyAccordion.tsx:149-150 | panel and trigger ids are injective in the entry id, and never equal each other |
| CompanyAccordion.ConditionalLast | src/components/experience/CompanyAccordion.tsx:218-227 | a trailing `cond && s` appends `" " + s` exactly when `cond` holds |
| CompanyAccordion.ChevronRotatesWhenOpen | src/components/experience/CompanyAccordion.tsx:218-227 | an open entry's chevron has the closed classes plus `rotate-180`; a closed entry's has the base classes only |
| CompanyAccordion.PanelClassesByState | src/components/experience/CompanyAccordion.tsx:254-258 | the panel classes are the base classes plus the open or the collapsed row/opacity pair |
| SquaredShowcase.Col | src/components/SquaredShowcase.tsx:138 | the column is below `cols` |
| SquaredShowcase.ZIndex | src/components/SquaredShowcase.tsx:141 | the stacking index lies in its row's block `[row*cols, row*cols + cols - 1]` |
| SquaredShowcase.ZIndexDecodes | src/components/SquaredShowcase.tsx:137-141 | the stacking index encodes the row and the column counted from the right |
| SquaredShowcase.ZIndexInjective | src/components/SquaredShowcase.tsx:137-141 | distinct tiles never share a stacking index |
| SquaredShowcase.ZIndexOrder | src/components/SquaredShowcase.tsx:140-141 | within a row, the index falls from left to right; a lower row lies above every tile of a higher row |
| SquaredShowcase.Title | src/components/SquaredShowcase.tsx:77-80 | the idle title shows when no tile is displayed; the title is `undefined` exactly when the displayed index is past the end |
| SquaredShowcase.Text | src/components/SquaredShowcase.tsx:82-83 | a text shows only for a displayed tile that has a description |
| SquaredShowcase.TitleOfTile | src/components/SquaredShowcase.tsx:77-83 | a displayed tile's title is its description's title if it has one, else its label; with no description there is no text |
| SquaredShowcase.TileShadowShape | src/components/SquaredShowcase.tsx:126-134 | a tile's shadow has 12 hard layers in `darkenHex(base, 0)` and then the 5 default glows in the base colour |
| SquaredShowcase.Showcase.constructor | src/components/SquaredShowcase.tsx:42-55 | nothing is active or displayed, and nothing is fading |
| SquaredShowcase.Showcase.Activate | src/components/SquaredShowcase.tsx:168-170 | hover or focus makes the tile active; no handler clears it |
| SquaredShowcase.Showcase.StartFade | src/components/SquaredShowcase.tsx:66-67 | a change of `active` starts the fade-out |
| SquaredShowcase.Showcase.FinishFade | src/components/SquaredShowcase.tsx:69-72 | the timer shows the active tile and ends the fade |
| SquaredShowcase.HeaderWellDefined | src/components/SquaredShowcase.tsx:77-167 | in every valid state the header has a title, and at most one tile is `aria-pressed` |
| IsoCubeGrid.RowCol | src/components/IsoCubeGrid.tsx:45-46 | the column is below `cols` |
| IsoCubeGrid.RowColInGrid | src/components/IsoCubeGrid.tsx:44-46 | every id below `rows*cols` lands in a row below `rows`, and its position gives the id back |
| IsoCubeGrid.IndexOfInGrid | src/components/IsoCubeGrid.tsx:44-46 | every lattice position is reached by exactly one id below `rows*cols` |
| IsoCubeGrid.RowColInjective | src/components/IsoCubeGrid.tsx:45-46 | two ids at the same position are equal |
| IsoCubeGrid.Items | src/components/IsoCubeGrid.tsx:44-53 | there are `rows*cols` cubes, and cube `i` has the position and delay of id `i` |
| IsoCubeGrid.ItemIds | src/components/IsoCubeGrid.tsx:48 | the cube ids are `0 .. rows*cols - 1`, in order |
| IsoCubeGrid.CubeInside | src/components/IsoCubeGrid.tsx:39-50 | with a non-negative spacing, every cube lies inside the `width` by `height` container |
| IsoCubeGrid.DelayStagger | src/components/IsoCubeGrid.tsx:51 | cubes on one anti-diagonal start together; a step right or down waits one `baseDelay` longer |
| IsoCubeGrid.DefaultGrid | src/components/IsoCubeGrid.tsx:28-53 | the defaults give 15 cubes in a 480 by 280 container, the first delayed 0.2 s |
| SkillsOverview.EffectiveColumns | src/components/homepage/SkillsOverview.tsx:73-84 | a section gets between 1 and 4 columns |
| SkillsOverview.ColumnSteps | src/components/homepage/SkillsOverview.tsx:76-80 | the k-th class is `columns-(k+1)` at the k-th breakpoint |
| SkillsOverview.ColumnsUpToSnoc | src/components/homepage/SkillsOverview.tsx:76-80 | each breakpoint appends one column class to the layout below it |
| SkillsOverview.ColumnsUpToValue | src/components/homepage/SkillsOverview.tsx:78-83 | the stepwise layout for `n` columns is the n-th class string of the source |
| SkillsOverview.ColumnsClassIsStepwise | src/components/homepage/SkillsOverview.tsx:73-84 | every class string is one column on mobile plus one more per larger breakpoint, up to the effective count |
| SkillsOverview.ColumnsDefault | src/components/homepage/SkillsOverview.tsx:74-83 | no value, the value 3 and every unsupported count all give the three-column layout |
| SkillsOverview.LevelLabelsInOrder | src/components/homepage/SkillsOverview.tsx:40-46 | each level has its label, in order, and no two levels share one |
| SkillsOverview.BarWidthSteps | src/components/homepage/SkillsOverview.tsx:187 | the bar fills 20 percent per level, from 20 to 100, strictly growing |
| SkillsOverview.LevelRow | src/components/homepage/SkillsOverview.tsx:178-191 | the level row is drawn iff the card has a level, with width `20*level` and the level's label |
| Navbar.ActiveIndices | src/components/Navbar.tsx:148-149 | the highlighted links are exactly those whose href equals the pathname |
| Navbar.AtMostOneActive | src/components/Navbar.tsx:57-58 | with distinct hrefs, at most one link is highlighted on any route |
| Navbar.NoneActive | src/components/Navbar.tsx:57-58 | a route that is no link's href highlights nothing |
| Navbar.MenusDistinct | src/components/Navbar.tsx:12-17 | the menu's four hrefs are distinct, as written and as corrected |
| Navbar.ContactsUnhighlightedAsWritten | src/components/Navbar.tsx:16 | as written, no link is highlighted on the `/contacts` page |
| Navbar.EachRouteHighlightsItsLink | src/components/Navbar.tsx:12-17 | with the corrected href, each page highlights exactly its own link |
| Navbar.NextOpen | src/components/Navbar.tsx:31-160 | the menu button flips the drawer; Escape, the overlay, the close button and a drawer link close it; other keys change nothing |
| Navbar.OnlyMenuButtonOpens | src/components/Navbar.tsx:78 | only the menu button opens the drawer, and pressing it twice changes nothing |
| Navbar.Nav.constructor | src/components/Navbar.tsx:8 | the drawer starts closed, with scrolling unlocked |
| Navbar.Nav.SyncScrollLock | src/components/Navbar.tsx:23-29 | the root's `overflow-hidden` class follows `isOpen` |
| Navbar.Nav.Handle | src/components/Navbar.tsx:20-160 | an event updates the drawer as `NextOpen` says, and the scroll lock stays equal to the drawer state |

## Left out

- Donut: the torus geometry and the floating-point trigonometry (lines 110-149 of Donut.tsx) are a parameter `sweep`, the sample points it produces. The model proves the buffer, depth-test, shading and text logic for every sample sequence. `Float32Array` rounding of depths is not modelled.
- Donut: `requestAnimationFrame`, `cancelAnimationFrame`, the `visibilitychange` listener and the `<pre>` element are not modelled. The loop is modelled as calls to `Tick` and `OnVisibility`, and the text as `Tick`'s result.
- Shadow: `darkenHex`, `rgbToHsl` and `hslToRgb` are not modelled. The colour arithmetic is floating point, so `darkenHex` is the parameter `Shadow.Darken`. Likewise, JavaScript's number-to-text conversion inside template literals is the parameter `Shadow.NumberText`.
- Shadow.HexToRgb: only hex-digit strings of at most 13 digits after the optional '#' are modelled (`HexInput`). `parseInt`'s prefix parsing of other text and `NaN` channels are not covered; neither are bit operations on values past 2^53.
- SquaredShowcase: the shadow model needs a hex `item.color`. Other CSS colour syntaxes are outside `HexInput`. The `cols` prop is a positive integer (`Showcase.Valid`); the source does not guard `cols = 0`.
- IsoCubeGrid and SquaredShowcase: non-integer or negative `rows`/`cols` props are not modelled. Sizes are `nat`.
- TimelineRoadmap: the `IntersectionObserver`, the staggered `setTimeout`, the pixel height of the progress bar and focusing the DOM element are not modelled. The model covers the counter, the fraction and the index the keyboard handler focuses.
- TimelineRoadmap: the markup class strings of the cards are not modelled (`ToneClasses` models the tone sets only).
- CompanyAccordion: the localised period, location and prose fields of `EXPERIENCES` are display text and are not modelled.
- Framer-motion animations, hover styles and focus rings are presentation only. SkillsOverview cards, section headers and their delays are not modelled.
- VerticalTabs: DOM focus is modelled as the `focused` field. The refs array and `useId` are not modelled.
- VerticalTabs.Tabs.KeyDown: `preventDefault` is not modelled.
- Navbar: focusing the first drawer link, the listener's add/remove cycle and the route change itself are not modelled.
- Navbar: the `/contacts` route comes from the app's `contacts` page directory. `src/app/page.tsx` (the home route) is not part of this model; `/` is taken as the home page.
- TimelineSlider.DotStates: the active/passed/idle split is stated only below 100000 spacings, because the source's fixed 0.001 tolerance breaks it from there on (see Findings).
- TimelineSlider.Slider.Prev and TimelineSlider.Slider.Next: they require `Valid`. The buttons exist only after a render that succeeded, and a render succeeds only while `index` is in range.
- TimelineSlider.Slider.SetItems and VerticalTabs.Tabs.SetItems: a new `items` prop is modelled by its length, or by its `disabled` flags, and not by its contents.
- SquaredShowcase.Showcase and TimelineRoadmap.Roadmap: the item list is fixed for the component's lifetime. Neither component crashes on a shorter list: the showcase reads items with `?.`, and the roadmap clamps its progress.
- TimelineSlider: `onChange` is recorded as the sequence of reported indices (`notified`). The item passed with each index is not recorded.

## Findings

| source | as written | input that shows it | evidently intended | confidence | as-written member | corrected member |
|---|---|---|---|---|---|---|
| src/components/VerticalTabs.tsx:125 | End calls `nextEnabled(items.length - 1, -1)`, whose first probe is `len - 2` | three enabled tabs: End focuses tab 1 | End focuses the last enabled tab: `nextEnabled(items.length, -1)` | high (not executed) | VerticalTabs.EndAsWrittenExample | VerticalTabs.EndIsLastEnabled |
| src/components/Navbar.tsx:16 | the Contacts link's href is `/contact`, but the page lives at `/contacts` | pathname `/contacts`: no link is highlighted | href `/contacts`, so each page highlights its own link | medium (not executed) | Navbar.ContactsUnhighlightedAsWritten | Navbar.EachRouteHighlightsItsLink |
| src/components/TimelineVerticalSlider.tsx:109 | `withinFill` uses a fixed tolerance of 0.001 percent | 100001 items, index 0: dot 1 counts as passed | a tolerance below one dot spacing, so dot `i` is passed iff `i < index` | low (not executed) | TimelineSlider.DotStateOvershoot | TimelineSlider.DotStatesIntended |
| src/components/TimelineVerticalSlider.tsx:29 | `index` is clamped once, by `useState(clampedInitial)`, and never again when `items` changes | three items at index 2, then a one-item list: `items[2].title` at line 195 throws a `TypeError` | re-clamp `index` into the new list | low (not executed) | TimelineSlider.ShrinkThrowsExample | TimelineSlider.Slider.SetItemsReclamped |
