# Portfolio and contact page — a Dafny model

This project models the logic of two browser scripts for a personal portfolio site.

`portfolio.js` renders a list of projects and a few content sections. Its view state has three parts:

- an active technology filter (`'All'` or one tag);
- the id of the selected project, or `null`;
- a visibility flag per content section.

The shown project list is the projects that carry the filter's tag, sorted by title. The filter's drop-down offers every tag used by some project, without duplicates and sorted. Clicking a card selects it and opens a detail panel. A selection that the filter no longer shows is cleared.

`contact.js` validates a contact form. The rules are: a name, an email matching `^[^\s@]+@[^\s@]+\.[^\s@]+$`, and a message of at least two characters counting the subject. A failed submission sets `aria-invalid` on each field by searching the lower-cased error texts for the field's id. With the French texts this flags the email and message fields correctly, but never the name field. A successful one puts the entry at the front of an in-memory list. That list is shown with each entry's name, email, subject and message passed through `escapeHtml`; the timestamp is shown as a date, unescaped.

Modules:

- `Wrappers`: `Option`.
- `Text`:
  - the JavaScript white-space class (`\s`, `trim`) and `trim`;
  - ASCII lower-casing and `includes`;
  - the code-unit string order used by `sort()`.
- `Sorting`: a stable insertion sort by a string key, proved sorted, a permutation, stable, and preserving unique labels.
- `Portfolio`:
  - the content datatypes;
  - the pure view rules (filter and sort, tech options, section toggle, section rendering);
  - the `ViewState` class, whose methods are the page's event handlers.
- `Escape`: `escapeHtml` as its chain of global replacements. It is proved equal to a per-character encoding, safe, decodable, injective, and the identity on strings with no reserved character.
- `Contact`:
  - `Validate` and the email pattern;
  - the `aria-invalid` flag rule, both as written and corrected;
  - the `ContactForm` class with the submissions list;
  - the submissions view.

Two behaviours of the code a reader may not expect:

- Pressing the toggle of an id that is not in the visibility map adds that id as `true`. In JavaScript `!undefined` is `true`, so this is not a no-op.
- When the filtered list is empty, `renderProjects` returns before the selection-clearing step. The selection is then left as it was and only the detail panel is hidden (portfolio.js:135-139).

`localeCompare` is modelled as code-unit lexicographic order (`Text.LexLe`). The tag list's plain `sort()` uses exactly that order.

## Model

| member | source | states |
|---|---|---|
| Text.TrimSpec | contact.js:38-41 | `trim` returns a contiguous piece of its input and cuts off only white space, at the two ends |
| Text.TrimmedEnds | contact.js:38-41 | a non-empty result of `trim` starts and ends with a non-white-space character |
| Text.TrimEmptyIffBlank | contact.js:38-39 | `s.trim()` is empty exactly when every character of `s` is white space |
| Text.LexLeTotal | portfolio.js:133 | any two titles are comparable in the sort order |
| Text.LexLeTransitive | portfolio.js:133 | the sort order is transitive |
| Text.LexLeAntisymmetric | portfolio.js:103 | two strings ordered both ways are equal, so sorted distinct tags ascend strictly |
| Sorting.SortByIsStableSort | portfolio.js:133 | the sort's output is sorted by key, is a permutation of its input, and keeps elements with equal keys in their input order |
| Sorting.SortByDistinct | portfolio.js:131-133 | sorting keeps project ids unique |
| Portfolio.FilterTechCounts | portfolio.js:131-132 | the filter keeps every copy of a project matching `tech === 'All' \|\| p.tech.includes(tech)` and no other project |
| Portfolio.FilterAllKeepsEverything | portfolio.js:132 | under `'All'` the filter returns the project list unchanged |
| Portfolio.FilterTechDistinct | portfolio.js:131-132 | filtering keeps project ids unique |
| Portfolio.VisibleSpec | portfolio.js:131-133 | the shown list is sorted by title; it holds each matching project as often as the content does and nothing else; a project is shown iff it matches; equal titles keep their content order |
| Portfolio.VisibleAll | portfolio.js:131-133 | under `'All'` the shown list is a permutation of all projects, sorted by title, stable for equal titles |
| Portfolio.VisibleDistinct | portfolio.js:131-133 | the shown cards have unique, non-empty ids when the content's projects do |
| Portfolio.ShownIdIsProjectId | portfolio.js:150-153 | the id of a shown card names a project of the content |
| Portfolio.AllTechsMembers | portfolio.js:103 | the flattened tag list holds exactly the tags of some project |
| Portfolio.DedupSpec | portfolio.js:103 | `Array.from(new Set(...))` has no duplicates and the same members as its input |
| Portfolio.TechOptionsSpec | portfolio.js:103 | the option list ascends strictly (no duplicates, code-unit order) and holds exactly the tags used by some project |
| Portfolio.OfferedTechSelectsSomething | portfolio.js:131-139 | choosing any tag from the option list (portfolio.js:103) shows at least one project, so the "no matching project" text needs another value |
| Portfolio.MarksSelectAtMostOne | portfolio.js:141-142 | with unique ids at most one card is marked `selected`, and a card is marked iff its id is the selection |
| Portfolio.ToggledSpec | portfolio.js:72 | a toggle flips the pressed section's flag, adds an unknown id as shown, and leaves every other entry unchanged |
| Portfolio.ToggleTwiceRestores | portfolio.js:72 | toggling a known section twice restores the visibility map |
| Portfolio.InitialVisibility | portfolio.js:42 | at load every section id maps to `true` and no other id is present |
| Portfolio.RenderSection | portfolio.js:81-97 | a section is hidden iff its flag is not `true`; its body is exactly its items if present, else exactly its groups if present, else its text with missing text as `''` |
| Portfolio.RenderContentSections | portfolio.js:78-99 | every section is rendered, in content order |
| Portfolio.InitiallyNothingHidden | portfolio.js:42-46 | right after load no section carries the hidden class |
| Portfolio.ToggleChangesOnlyThatSection | portfolio.js:72-74 | after a toggle only the pressed section's hidden class changes, also for an id not yet in the map; every body is unchanged |
| Portfolio.ViewState.Init | portfolio.js:40-50 | load state: every section shown, filter `'All'`, nothing selected, detail hidden, and the view invariant holds |
| Portfolio.ViewState.RenderProjectDetail | portfolio.js:169-176 | the detail panel is shown exactly when the selection names a project |
| Portfolio.ViewState.RenderProjects | portfolio.js:128-167 | returns the filtered, sorted list and at most one marked card. An empty list leaves the selection unchanged and hides the detail. Otherwise a truthy selection missing from the list is cleared and the detail hidden, and a remaining selection shows the detail. The selection is consistent afterwards, and on a valid state the call changes nothing |
| Portfolio.ViewState.ToggleSection | portfolio.js:68-75 | the visibility map becomes the toggled map; `aria-pressed` is the new flag; the sections are re-rendered from the new map |
| Portfolio.ViewState.RenderProjectFilters | portfolio.js:101-103 | the drop-down's options are the tech options: no duplicates, ascending in code-unit order, exactly the tags some project uses |
| Portfolio.ViewState.SetFilter | portfolio.js:117-120 | the filter becomes the chosen value, the list is re-rendered for it with cards marked from the previous selection, and a selection no longer listed is cleared when the list is non-empty |
| Portfolio.ViewState.ClearFilter | portfolio.js:121-125 | the filter becomes `'All'`, the options are re-derived, the full sorted list is re-rendered with cards marked from the previous selection; a selection still listed (or any selection when the list is empty) is kept, one no longer listed is cleared |
| Portfolio.ViewState.SelectProject | portfolio.js:150-156 | the clicked card's id becomes the selection, only that card is marked, and the detail is shown |
| Portfolio.ViewState.CloseDetail | portfolio.js:183-187 | the selection becomes `null`, the detail is hidden, and the list is re-rendered with one unmarked card per shown project |
| Escape.ReplaceAllAppend | contact.js:26-27 | a global replacement of one character distributes over concatenation |
| Escape.ReplaceAllAbsent | contact.js:26-27 | a global replacement of a character that does not occur changes nothing |
| Escape.EscapeHtmlAppend | contact.js:24-28 | `escapeHtml` distributes over concatenation |
| Escape.EscapeHtmlChar | contact.js:24-28 | on one character, the replacement chain yields that character's entity (or the character) |
| Escape.EscapeHtmlIsEncodeAll | contact.js:24-28 | because `&` is replaced first, the chain equals per-character encoding: nothing is escaped twice |
| Escape.EscapeHtmlSafe | contact.js:24-28 | the output contains no `<`, `>`, `"` or `'`, and every `&` in it begins one of the five entities |
| Escape.EscapeHtmlRoundTrip | contact.js:24-28 | decoding the five entities in `escapeHtml(s)` gives back `s` |
| Escape.EscapeHtmlInjective | contact.js:24-28 | distinct strings have distinct escapings |
| Escape.EscapeHtmlIdentity | contact.js:24-28 | the output is never shorter than the input, and equals it iff the input has none of the five reserved characters |
| Contact.IsEmailShapedMatchesPattern | contact.js:40 | the direct test (first `@`, no white space, a `.` with text on both sides in the domain) accepts exactly the strings the regular expression matches |
| Contact.EmailPatternShape | contact.js:40 | a matching address has exactly one `@` and no white space |
| Contact.IsMissing | contact.js:38-39 | `!s.trim()` holds exactly when `s` is all white space |
| Contact.TestEmailPattern | contact.js:40 | the regular-expression test holds exactly when `s` (untrimmed) is in the pattern's language |
| Contact.ErrorsForSpec | contact.js:36-43 | the list built from the outcomes of the four checks holds each error exactly when its check failed (the format error only for a non-blank email), in check order, at most three |
| Contact.Validate | contact.js:36-43 | name error iff the name is blank; email-required error iff the email is blank; format error iff the email is non-blank and does not match; never both email errors; short-message error iff trimmed message length plus subject length is below 2; errors in check order, at most three |
| Contact.NoErrorsIffAcceptable | contact.js:57-58 | `validate` returns no error exactly for a form with a name, a matching email and a long enough message |
| Contact.AsWrittenFlags | contact.js:61-64 | with the French messages the written heuristic never flags `name`, flags `email` iff an email error is present, and flags `message` iff the short-message error is present |
| Contact.BlankNameGoesUnflagged | contact.js:61-64 | whenever the name error is reported, the written heuristic leaves the name field unflagged |
| Contact.FlagsFollowErrors | contact.js:61-64 | corrected rule: each field is flagged exactly when one of its own errors is reported |
| Contact.ContactForm.constructor | contact.js:5-7 | the list starts as the stored submissions; no field is flagged |
| Contact.ContactForm.FlagFields | contact.js:61-64 | each of the three field flags is set to whether some lower-cased error text contains the field's id (or, for `email`, contains `email`); every other entry is unchanged |
| Contact.ContactForm.ClearFlags | contact.js:75 | the three field flags are removed; every other entry is unchanged |
| Contact.ContactForm.Submit | contact.js:45-77 | no error exactly for an acceptable form. On failure the list is unchanged, the name flag is `false` whatever the name, the email flag is `true` exactly when the email is blank or does not match, the message flag is `true` exactly when the message is too short, and every other `aria-invalid` entry is unchanged. On success the new entry (four values and the timestamp) is at index 0, followed by the previous list unchanged, and the flags are removed |
| Contact.RenderSubmissions | contact.js:9-22 | the placeholder text exactly when the list is empty, otherwise one entry per submission |
| Contact.RenderedEntriesDecode | contact.js:14-20 | each shown field decodes back to the submitted value, or to the French fallback for an empty subject or message, and keeps its timestamp |
| Contact.NewestShownFirst | contact.js:69-76 | after a successful submission the new entry is shown first and the older entries follow in their order |

## Left out

- DOM output: `innerHTML` templates, `classList`, `querySelector`, `getElementById`. The model keeps only what is rendered and which flags are set.
- Event-listener wiring, including the listeners added again on every render (portfolio.js:68, 117, 121, 151). Each handler is a method of `ViewState` or `ContactForm`.
- The header and footer rendering and the filter-select markup (portfolio.js:52-61, 105-115, 190-193): these are static templating. Of `renderProjectFilters` only the option list is modelled.
- The static content literal (portfolio.js:1-32): `ViewState.Init` takes any project and section lists.
- Portfolio.ViewState.Init: requires unique, non-empty project ids, as the content literal has. With duplicate ids the code could mark several cards.
- Portfolio.ViewState.Init: the detail panel is taken to start hidden; its initial class lives in the HTML, which is not part of this model.
- Sorting.SortBy: titles are ordered by code units, not by the locale collation of `localeCompare`.
- Text.LexLe: Dafny characters are Unicode scalar values, not UTF-16 code units. For characters outside the Basic Multilingual Plane, the order and string lengths differ from JavaScript's.
- Contact.Validate: lengths count Unicode scalar values, not UTF-16 code units. A character outside the Basic Multilingual Plane, such as an emoji, has length 2 in JavaScript and 1 here. So a message of one such character passes the length rule in the page but is reported too short by the model.
- Text.Lower: lower-cases ASCII letters only. That is exact for the four error messages, which are ASCII.
- `localStorage` and `JSON.parse`/`stringify` (contact.js:7, 71): the constructor takes the stored list as a parameter.
- The `FormData` extraction (contact.js:48-54) and `contactForm.reset()`. `FormValues` is taken as given.
- `Date.now()` (contact.js:69): the timestamp is a parameter of `Submit`.
- `toLocaleString()` (contact.js:15): an entry carries the raw timestamp.
- `showMessage` and the texts it shows (contact.js:30-34, 59, 72). Only their escaping, which is `escapeHtml`, is modelled.
- `String(str)` in `escapeHtml`: every modelled value is already a string.

## Findings

| source | as written | input that shows it | evidently intended | confidence | as-written member | corrected member |
|---|---|---|---|---|---|---|
| contact.js:63 | a field is flagged when a lower-cased error text contains its id, but the name error reads "Le nom est requis." and never contains `name` | a form with an empty name: `validate` reports the name error, yet the name field gets `aria-invalid="false"` | flag each field whose own error is reported | high, not executed | Contact.BlankNameGoesUnflagged | Contact.FlagsFollowErrors |

`ContactForm.Submit` and `ContactForm.FlagFields` follow the code as written. The corrected rule is `Contact.Flagged`, and `Contact.FlagsFollowErrors` proves what it flags.
