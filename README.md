# Personal-website front-end: verified model of the page's state machines

`script.js` wires up a static personal site. This project models the
deterministic decisions its event handlers make, and proves what they promise:

- **Theme switch** (`theme.dfy`, module `Theme`). The page keeps the current
  theme in the `data-theme` attribute of the document root and in local
  storage under the key `"theme"`. The toggle button's `aria-pressed` and its
  icon (☀️ while dark, 🌙 otherwise) follow the theme. At load a non-empty saved
  theme wins; otherwise the `prefers-color-scheme: dark` preference decides.
  A click switches `"dark"` to `"light"` and every other value to `"dark"`.
  The page is a class `ThemeSwitch` whose fields are the attribute, the storage
  map, the two element-exists flags, `aria-pressed` and the icon text.
- **Colour parsing** (`hex_color.dfy`, module `HexColor`). `hexToRgb` drops the
  first `#` and reads three two-digit hex fields. It is paired with `FormatHex`,
  which writes `#rrggbb` in lower case, so that both round trips can be stated.
- **Active nav link** (`nav_links.dfy`, module `NavHighlight`). The
  intersection-observer callback clears `active` on every nav link and sets it
  on the link whose `href` is `#` plus the section id. The links are a class
  `NavBar` holding an `array<bool>` of `active` flags.
- **Mockup image cycler** (`mockup.dfy`, module `MockupCycler`). `showIndex`
  rewrites the opacity and transform of every image in one loop and records the
  index. A click advances the index modulo the image count when there are at
  least two images, and Enter or Space acts as a click. A container is a class
  `Mockup` over an `array<Image>` and an index field.
- `wrappers.dfy` holds the `Option` type.

The class methods are proved against pure specification functions of the old
state (`AfterClick`, `AfterEntries`, `InitialTheme`, …). The lemmas then state
the page's promises about those functions.

The browser is abstracted in each module:
- DOM lookups become fields: whether `themeToggle` / `themeIcon` exist, the
  nav links' hrefs, a container's images.
- `localStorage` is a `map<string, string>` field.
- `matchMedia` is a boolean argument that is false when the API is missing.
- An observer record is an `Entry(targetId, isIntersecting)`.

## Model

| member | source | states |
|---|---|---|
| Theme.Toggled | script.js:25 | the toggle gives "light" exactly for "dark"; every other value gives "dark" |
| Theme.ToggleTwice | script.js:25 | on "dark" and "light" a toggle always changes the theme, and two toggles restore it |
| Theme.ToggleAlternates | script.js:24-26 | from any starting value, even a foreign stored one, the k+1-th toggle gives the first or the second toggle's theme by the parity of k, so the theme alternates between two proper values |
| Theme.ToggledTimes | script.js:24-26 | the theme after k toggle clicks: the starting value for k = 0, and "dark" or "light" after any click |
| Theme.PressedFlag | script.js:12 | `aria-pressed` is "true" exactly when the theme is "dark", else "false" |
| Theme.Icon | script.js:13 | the icon is the sun exactly when the theme is "dark", else the moon |
| Theme.Saved | script.js:18 | the stored value is present exactly when the "theme" key is in storage, and then equals it |
| Theme.InitialTheme | script.js:17-20 | the load-time theme is never empty; a non-empty saved value is used as is; a missing or empty one gives "dark" exactly when dark is preferred, else "light" |
| Theme.ThemeSwitch.constructor | script.js:2-4 | the page state before load is taken as given |
| Theme.ThemeSwitch.SetTheme | script.js:6-15 | the attribute becomes the theme; storage gains "theme" set to it and nothing else changes; `aria-pressed` and the icon follow the theme when both elements exist and are untouched otherwise; storage, attribute and button are in sync afterwards |
| Theme.ThemeSwitch.InitTheme | script.js:17-20 | applies the load-time choice from the old storage and the preference, with every effect of SetTheme |
| Theme.ThemeSwitch.Toggle | script.js:24-26 | applies the toggled theme of the current attribute, with every effect of SetTheme |
| HexColor.DigitValue | script.js:87 | the hex value of a digit, below 16, in either letter case |
| HexColor.HashIndex | script.js:86 | the position of the first '#', or the length when there is none; no earlier character is '#' |
| HexColor.StripHash | script.js:86 | `replace('#', '')`: a string without '#' is unchanged; otherwise exactly the first '#' is removed, the characters before it kept in place and those after it moved down by one |
| HexColor.StripLeadingHash | script.js:86 | for a string starting with '#', the replacement drops exactly that character |
| HexColor.IsColorInput | script.js:86-87 | the input domain: after the first '#' is removed, at least six characters remain and the first six are hex digits. It is a predicate without an ensures; HexToRgb and the round-trip lemmas give its meaning |
| HexColor.ParsePair | script.js:87 | a two-digit field reads as a byte whose 16s and units digits are the two characters' values |
| HexColor.HexToRgb | script.js:85-88 | every modelled input gives three components, each in [0, 255] |
| HexColor.Hex2 | script.js:87 | the two lower-case digits that a pair reads back as the component |
| HexColor.FormatHex | script.js:85-88 | a colour is written as '#' followed by six hex digits |
| HexColor.PairRoundTrip | script.js:87 | reading two digits and writing the byte back gives the same digits in lower case |
| HexColor.RgbRoundTrip | script.js:85-88 | a formatted colour is a valid input and reads back as the same colour |
| HexColor.DigitsRoundTrip | script.js:85-88 | reading and re-formatting gives '#' and the input's first six digits (after the first '#' is removed), in lower case |
| HexColor.CanonicalRoundTrip | script.js:85-88 | a "#rrggbb" string in lower case is a valid input and re-formats to itself |
| HexColor.DefaultColors | script.js:96-97 | the fallbacks "#ffffff" and "#111827" read as (255, 255, 255) and (17, 24, 39) |
| NavHighlight.FirstFrom | script.js:131 | the first link index at or after a start whose href equals the target, or none when no later link matches |
| NavHighlight.LinkFor | script.js:131 | the selected link is the first in document order whose href is "#" plus the id; there is none exactly when no link's href matches |
| NavHighlight.OnlyActive | script.js:134-135 | flags marking exactly one given link active |
| NavHighlight.AfterEntry | script.js:130-136 | one callback step keeps the number of flags and is a no-op for an entry that is not intersecting or has no link; EntryEffect states the rest |
| NavHighlight.AfterEntries | script.js:129-137 | the `forEach` over a batch keeps the number of flags and changes nothing when no entry qualifies; BatchEffect states the rest |
| NavHighlight.LastActivated | script.js:129-137 | some link exactly when an entry of the batch is intersecting and has a link; then it is the link of such an entry after which no entry qualifies, and it is a real link index |
| NavHighlight.EntryEffect | script.js:130-136 | for an intersecting entry with a link, only that link is active afterwards; any other entry changes no flag |
| NavHighlight.BatchEffect | script.js:129-137 | a batch's effect is that of its last intersecting entry with a link (only that link active); a batch with no such entry changes nothing |
| NavHighlight.NavBar.constructor | script.js:107 | the nav links and their `active` flags as the page has them at load |
| NavHighlight.NavBar.ActivateOnly | script.js:134-135 | after clearing every link and setting one, exactly that link is active |
| NavHighlight.NavBar.OnEntry | script.js:130-136 | the flags become the single-entry update of the old flags |
| NavHighlight.NavBar.OnEntries | script.js:128-138 | the flags become the batch update of the old flags, entry by entry in order |
| MockupCycler.JsRemainder | script.js:162 | JavaScript `%`: the remainder has the dividend's sign, is smaller than the divisor in magnitude, and differs from the dividend by a multiple of the divisor |
| MockupCycler.Rendered | script.js:147-150 | every image is shown ('1', scale(1)) if its position is the index and hidden ('0', scale(.98)) otherwise |
| MockupCycler.RenderedShowsOne | script.js:147-150 | exactly one image is shown for an index in range and none for one outside |
| MockupCycler.ClickedIndex | script.js:161-162 | below two images the index stays; otherwise a non-negative index becomes (index + 1) mod n, so it moves to the next image and wraps from the last to 0, and from any index of at least -1 it lands in [0, n) |
| MockupCycler.Displayed | script.js:145-152 | after `showIndex(i)` the recorded index is i, the image count is kept, and an image is shown exactly when its position is i |
| MockupCycler.AfterClick | script.js:159-164 | a click with fewer than two images changes nothing; otherwise it displays the clicked index |
| MockupCycler.IsActivationKey | script.js:168 | the keys that act as a click, "Enter" and " ". It is a predicate without an ensures; AfterKey states its effect |
| MockupCycler.AfterKey | script.js:167-172 | Enter and Space have exactly the effect of a click; any other key changes nothing |
| MockupCycler.Clicks | script.js:159-164 | the state after k clicks keeps the image count and, below two images, is the starting state; ClicksAdvance and CyclesBack state the rest |
| MockupCycler.ClicksAdvance | script.js:159-164 | from an index in range, k clicks leave the index at (index + k) mod n and keep the image count |
| MockupCycler.NextRemainder | script.js:162 | one click on a remainder mod n gives the remainder of the successor |
| MockupCycler.CyclesBack | script.js:159-164 | from a displayed state with n ≥ 2 images and an index in range, n clicks restore the exact starting state |
| MockupCycler.Mockup.constructor | script.js:154-156 | at load the container shows its recorded index, or 0 when none is recorded |
| MockupCycler.Mockup.ShowIndex | script.js:145-152 | the images and index become the displayed state for the given index |
| MockupCycler.Mockup.Click | script.js:159-164 | the container's state becomes the click update of the old state |
| MockupCycler.Mockup.KeyDown | script.js:167-172 | the container's state becomes the key update of the old state |

## Left out

- The reveal-on-scroll observer (script.js:29-41) only adds CSS classes through DOM observers, so it has no decision to state.
- The contribution graph (script.js:44-76) picks each cell's level with `Math.random`, builds SVG elements and animates them with `setTimeout`. Randomness and timing are outside the model.
- `luminance` and `contrast` (script.js:79-101) are floating-point computations whose results only reach `console.log`. Only the `hexToRgb` they call is modelled.
- Smooth scrolling (script.js:113-125) is pixel geometry from `getBoundingClientRect` and `scrollY`, ending in the side effect `window.scrollTo`.
- `localStorage` and `matchMedia` are not modelled as I/O. Storage is a map field and the dark-scheme preference is a boolean argument.
- Event registration, `preventDefault`, `querySelectorAll` and `classList` are abstracted into fields and arrays. Element existence is fixed for a page's lifetime, and a mockup's image list does not change.
- An id with a quote, backslash or newline is read by CSS in the selector `.nav-link[href="#id"]`: it can either make `querySelector` throw or match a different href. The modelled lookup `LinkFor` compares the href with "#" + id literally.
- HexColor.HexToRgb: its precondition requires six hex digits after the first '#' is removed. `parseInt` on malformed input (prefix parsing, signs, "0x", `NaN`) is not modelled.
- MockupCycler.Mockup.constructor: the recorded `data-mockup-index` is taken as an integer or as absent/empty. `Number()` on text that is non-numeric or fractional (`NaN`, non-integers) is not modelled.
