# Table-of-contents engine of grav-plugin-toc, in Dafny

This project models the heading-outline engine of the Grav `toc` plugin
(`classes/Toc.php`). The engine:

- scans HTML for heading elements, skipping those inside `pre`, `code`,
  `blockquote`, `q` and `cite` elements;
- gives each heading an anchor id: the `id` attribute, else the slug of its
  text, else a digest prefix, disambiguated with a per-scan counter;
- flattens the headings into an indented outline (`mapTree`);
- rewrites the headings in place with ids and optional permalinks (`tocify`);
- expands `[TOC]` and `[MINITOC]` placeholders into slices of the outline
  (`process`).

Modules, leaves first:

| module | file | models |
|---|---|---|
| `Wrappers`, `Text` | text.dfy | `Option`; ASCII classes, `strtolower`, `trim`, decimal rendering and `(int)` of digits |
| `Markers` | markers.dfy | the `str_ireplace` escaping of `[TOC]`/`[MINITOC]` in heading text |
| `Slug` | slug.dfy | `hyphenize`, one function per regular-expression rewrite |
| `Attributes` | attributes.dfy | `parseAttributes` and `htmlAttributes` |
| `Ids` | ids.dfy | base id rule and the collision counter |
| `Scanner` | scanner.dfy | the heading pattern as a deterministic left-to-right tokenizer |
| `Outline` | outline.dfy | `createToc` and `mapTree` |
| `Rewrite` | tocify.dfy | `tocify` and its `preg_replace_callback` callback |
| `Placeholders` | placeholders.dfy | the marker scan, the MINITOC selection loop and the final replacement of `process` |

Methods follow the loops of the PHP code:

- the counter dictionary becomes a `map` the loop reassigns;
- PHP arrays keyed by offset or attribute name become sequences in insertion order;
- the `static $indent` of `mapTree` becomes an explicit `depth` parameter.

Each method is proved equal to a specification function, and the properties
are lemmas about those functions.

Library calls the code makes are parameters:

- `Ids.Host` carries `iconv` transliteration and `md5`;
- `tocify`'s options are `Rewrite.Options`, holding `permalink` and an optional `anchorlink`;
- the Twig template that renders a slice is the `render` parameter of `Placeholders.Process`.

Behaviour of the code worth knowing:

- An empty heading (`<h1></h1>`) is not dropped by `createToc`. It gets an id from the digest of its empty text (classes/Toc.php:82-91). Only `tocify` skips empty headings.
- `h\d+` accepts `h0` and `h7` and above. The level is `(int)` of the digits.
- Ids are not always distinct. The counter registers base ids only, so an explicit or slugged `a-1` can collide with a generated `a-1` (`Ids.GeneratedIdCollides`).
- A `[MINITOC]` with no heading before it does not select nothing. PHP compares `level > null` as booleans, so every leading heading whose level is not 0 is selected (`Placeholders.AnchorLevel`).
- A placeholder in a document without headings is still rendered, with an empty list. Whether anything shows is up to the template.
- Markers are counted before `tocify` but replaced after it. A marker inside a heading's text is escaped by `tocify`, so the renderings after it go to the next marker along. A marker that has no rendering left is replaced by the empty string (`Placeholders.Spliced`).

## Model

| member | source | states |
|---|---|---|
| `Text.Lower` | classes/Toc.php:73 | `strtolower` keeps the length, maps each of `A`-`Z` to the small letter at the same place in the alphabet and leaves every other character alone |
| `Text.Trim` | classes/Toc.php:378 | `trim` with a character list returns text whose ends are not in the list, and returns text whose ends are not in the list unchanged |
| `Text.TrimCutsOnlyListed` | classes/Toc.php:328 | `trim` cuts only characters of the list, and only from the ends: the result is a slice `s[i..j]` of the input with every character before `i` and from `j` on in the list |
| `Text.TrimStripsEnds` | classes/Toc.php:328 | text whose first and last characters are not in the list, wrapped in any characters of the list, trims back to itself |
| `Text.DigitsValueOfNatToString` | classes/Toc.php:94 | the decimal suffix appended to a repeated id reads back as the counter value |
| `Text.NatToStringInjective` | classes/Toc.php:94 | different counter values give different suffixes |
| `Markers.EscapedHasNoMarker` | classes/Toc.php:99-101 | after the two `str_ireplace` calls the heading text holds neither `[TOC]` nor `[MINITOC]` in any letter case |
| `Markers.NoMarkerAfterReplace` | classes/Toc.php:100-101 | replacing a marker removes every case-insensitive occurrence of it and creates no occurrence of the other marker |
| `Slug.DecodesEntities` | classes/Toc.php:362 | `htmlspecialchars_decode` (restricted to `&amp; &lt; &gt; &quot;`) keeps the text before the first `&`, turns the entity there into its character and resumes decoding after it |
| `Slug.SplitAcronymsCuts` | classes/Toc.php:365 | the acronym rewrite copies the text and puts a `-` before exactly the capitals that follow a capital and precede a small letter |
| `Slug.SplitCamel` | classes/Toc.php:366 | the lower-to-upper rewrite returns text without capitals, and text with no small letter right before a capital, unchanged |
| `Slug.SplitCamelCuts` | classes/Toc.php:366 | the lower-to-upper rewrite copies the text and puts a `-` before exactly the capitals that follow a small letter; a digit before a capital gives no dash, because `[a-zd]` holds no digit |
| `Slug.CollapseRuns` | classes/Toc.php:369 | each maximal run of whitespace, `_`, `-` and `.` becomes one `-`, and every other character is kept in order |
| `Slug.CollapseFixes` | classes/Toc.php:369 | text whose only separators are lone dashes is unchanged |
| `Slug.KeepSlugChars` | classes/Toc.php:370 | the filter leaves only `[a-zA-Z0-9-]` and keeps text made of those characters |
| `Slug.KeepsSlugChars` | classes/Toc.php:370 | the filter keeps every character of `[a-zA-Z0-9-]`, in order, and drops every other one |
| `Slug.SqueezesRuns` | classes/Toc.php:373 | the squeeze removes exactly the dashes that follow a dash and keeps every other character in order |
| `Slug.SqueezeShape` | classes/Toc.php:373 | after the squeeze there is no `--`, the first character is kept, and slug characters stay slug characters |
| `Slug.FixAmpersand` | classes/Toc.php:375 | the `-&-` rewrite leaves text without `&` unchanged |
| `Slug.FixAmpersandRewrites` | classes/Toc.php:375 | the first `-&-` of the text becomes `--`, the text before it is kept and the rewrite resumes after it |
| `Slug.AmpersandNeverReached` | classes/Toc.php:370-375 | the `-&-` rewrite never changes what reaches it in `hyphenize`, since the filter before it has removed every `&` |
| `Slug.HyphenizeIsSlug` | classes/Toc.php:359-379 | `hyphenize` returns only `[a-z0-9-]`, with no `-` at either end and no `--` |
| `Slug.HyphenizeFixesSlugs` | classes/Toc.php:359-379 | `hyphenize` returns a slug unchanged |
| `Slug.HyphenizeIdempotent` | classes/Toc.php:359-379 | `hyphenize` applied to its own output changes nothing |
| `Attributes.AttrAt` | classes/Toc.php:317-324 | the attribute pattern matches exactly where a letter stands; the name is the longest run of name characters there; a value is taken exactly when `=` and text one of the value alternatives accepts follow the name, and it is that text; otherwise the match ends with the name |
| `Attributes.Put` | classes/Toc.php:328 | assigning an array key keeps the keys distinct and sets that key's value; a new key is appended at the end, an existing key is overwritten in its place, and no other entry changes |
| `Attributes.Collect` | classes/Toc.php:327-331 | filling the array match by match gives distinct keys |
| `Attributes.ParseAttributes` | classes/Toc.php:314-334 | the loop of `parseAttributes` returns the array that one assignment per match, in order, builds |
| `Attributes.CollectKeepsLastValue` | classes/Toc.php:326-331 | every matched name is a key, no other name is, and its value is that of its last occurrence |
| `Attributes.BareNameIsNull` | classes/Toc.php:328-330 | a name that neither a name character nor `=value` follows is a match on its own with value null, and the scan resumes right after it |
| `Attributes.QuotedValue` | classes/Toc.php:319-329 | a value in double or single quotes that does not hold its own quote is matched up to the closing quote and stored without its quotes |
| `Attributes.BareValue` | classes/Toc.php:321-329 | a value that neither quoted alternative takes is the run up to a space or `>`, stored with the quotes at its ends trimmed off |
| `Attributes.UnclosedQuote` | classes/Toc.php:319-329 | a quote that is never closed is read as the start of a bare value, and `trim` removes it from the stored value |
| `Attributes.Escape` | classes/Toc.php:348 | `htmlspecialchars` with `ENT_QUOTES` leaves no `< > " '` in its output and keeps text free of `& < > " '` unchanged |
| `Attributes.EscapeDecodes` | classes/Toc.php:348 | decoding `&amp; &lt; &gt; &quot;` gives back text without `'` that `htmlspecialchars` escaped |
| `Attributes.HtmlAttributes` | classes/Toc.php:344-351 | `htmlAttributes` returns `''` for an empty array, else a space followed by the `name="escaped"` entries joined with single spaces, null written as `""` |
| `Attributes.ParseSerialized` | classes/Toc.php:314-351 | parsing the serialized form of a map with grammar names and non-empty values free of `& < > " '` gives the map back |
| `Attributes.NullReadsBackEmpty` | classes/Toc.php:347-348 | a null attribute is written as `name=""` and reads back as the empty string, not null |
| `Ids.Prefix` | classes/Toc.php:90 | `substr($s, 0, $n)` is a prefix of length `min(n, strlen)` |
| `Ids.BaseId` | classes/Toc.php:86-91 | the base id is a non-null non-empty `id` attribute, else the non-empty slug of the trimmed text, else the first six digest characters |
| `Ids.GeneratedIdIsSlug` | classes/Toc.php:86-91 | without an `id` attribute and with a hexadecimal digest, the base id is a non-empty slug |
| `Ids.Bump` | classes/Toc.php:93-97 | the counter gains the base id with 1, or increments it, and no other key changes |
| `Ids.StepAgrees` | classes/Toc.php:93-97 | the counter loop gives the first occurrence of a base id the base itself and its k-th repeat `base-k`, and keeps the counter equal to the occurrence counts |
| `Ids.RepeatsDiffer` | classes/Toc.php:93-97 | two headings with the same base id get different ids |
| `Ids.GeneratedIdCollides` | classes/Toc.php:93-97 | ids are not always distinct: base ids `a`, `a`, `a-1` give `a`, `a-1`, `a-1` |
| `Scanner.MatchShape` | classes/Toc.php:43-47 | a match starts with `<`, has a tag the alternation accepts, attributes up to the first `>`, and ends at the first case-insensitive closing tag after the text |
| `Scanner.MatchComplete` | classes/Toc.php:43-47 | where no match starts at a `<`, no accepted tag there completes the pattern |
| `Scanner.Scan` | classes/Toc.php:70 | the matches come left to right without overlap |
| `Scanner.ScanMatches` | classes/Toc.php:70 | every match of the scan is the pattern's match at its own offset |
| `Scanner.ScanIsLeftmost` | classes/Toc.php:70 | no match of the pattern starts at a position outside all matches of the scan, so text inside a match is never scanned again |
| `Outline.MinLevelSpec` | classes/Toc.php:275-277 | the base level is a lower bound of the levels and some heading has it |
| `Outline.MapTree` | classes/Toc.php:270-304 | the `mapTree` loop with its recursive calls returns the flattening `Flat` of the list at the given depth |
| `Outline.FlatKeeps` | classes/Toc.php:284-299 | `mapTree` keeps every heading, in order, with every field but `indent` unchanged |
| `Outline.FlatIndents` | classes/Toc.php:285-295 | headings at the base level get the depth as indent, deeper ones a larger indent but at most the depth plus their distance from the base level |
| `Outline.FlatTreeShaped` | classes/Toc.php:270-304 | for adjacent entries, a larger indent means a larger level and an equal indent an equal level |
| `Outline.TopLevelIndents` | classes/Toc.php:114 | in `createToc`'s call, the headings at the minimum level get indent 0 and the others a positive indent |
| `Outline.Headings` | classes/Toc.php:73-78 | only matches whose lowercased tag starts with `h` yield entries |
| `Outline.HeadingsOrdered` | classes/Toc.php:71-78 | dropping the non-heading matches keeps the rest in order and apart |
| `Outline.LeadingValueOfDigits` | classes/Toc.php:81 | the level is the value of the tag's digits |
| `Outline.CreateToc` | classes/Toc.php:65-115 | `createToc` returns the outline of the content's scan |
| `Outline.BuildOutline` | classes/Toc.php:67-114 | the loop of `createToc`, with its counter updated in place, builds one record per heading match and then calls `mapTree` |
| `Outline.OutlineEntries` | classes/Toc.php:70-109 | one entry per heading match, with strictly increasing offsets, the lowercased tag, the level read from it, the disambiguated id and marker-free text |
| `Outline.SkippedInsideBlocks` | classes/Toc.php:43-47 | no entry of the outline starts inside a `pre`, `code`, `blockquote`, `q` or `cite` match |
| `Outline.OutlineOffsets` | classes/Toc.php:103-114 | the outline's offsets are those of the heading matches, in order |
| `Rewrite.Tocify` | classes/Toc.php:126-184 | `tocify` returns the content with each match of the `pre`/`code`/heading scan replaced by the callback's result |
| `Rewrite.ReplaceMatches` | classes/Toc.php:132-181 | the `preg_replace_callback` loop keeps the text between matches and threads the counter through the callback |
| `Rewrite.Callback` | classes/Toc.php:133-181 | a non-heading or empty heading is returned unchanged and leaves the counter alone; any other match is rewritten with the disambiguated id |
| `Rewrite.Register` | classes/Toc.php:156-160 | the callback's counter step gives the same id and counter as `createToc`'s |
| `Rewrite.Render` | classes/Toc.php:162-180 | the rewritten heading is `<tag attrs>text</tag>`, with the lowercased tag, the serialized attributes, and the escaped text inside a permalink when permalinks are on |
| `Rewrite.TocifyKeepsPlainContent` | classes/Toc.php:137-141 | content whose scan finds no heading with non-empty text is returned unchanged |
| `Rewrite.NothingToRewrite` | classes/Toc.php:132-141 | when the callback returns every match unchanged, the replacement gives the text back |
| `Rewrite.IdAttribute` | classes/Toc.php:168-170 | an `id` key is added only when links are on and the tag has no `id` key, and no other attribute changes |
| `Rewrite.InnerHasNoMarker` | classes/Toc.php:162-174 | the new heading content holds neither placeholder, permalink or not |
| `Rewrite.EscapeUnmarked` | classes/Toc.php:348 | `htmlspecialchars` creates no placeholder in text that has none |
| `Rewrite.WeaveUnmarked` | classes/Toc.php:132-181 | replacing matches of text without placeholders by tags without placeholders, each from `<` to `>`, creates none |
| `Rewrite.TocifiedUnmarked` | classes/Toc.php:126-184 | with a hexadecimal digest, `tocify` of content without placeholders returns content without placeholders |
| `Rewrite.IdAtIsDisambiguated` | classes/Toc.php:148-160 | `tocify` gives each rewritten heading the id `createToc`'s rule gives it, counted over the rewritten headings |
| `Rewrite.RewrittenIdsDiffer` | classes/Toc.php:155-160 | two rewritten headings with the same base id get different ids |
| `Placeholders.KeywordAt` | classes/Toc.php:201 | `\[(?:MINI)?TOC\]` matches exactly where either keyword stands, ignoring case, and reports which |
| `Placeholders.MarkersFrom` | classes/Toc.php:201-202 | the placeholder matches come left to right without overlap |
| `Placeholders.MarkerHoldsKeyword` | classes/Toc.php:201-207 | each placeholder match holds the keyword of its kind |
| `Placeholders.NoKeywordNoMarker` | classes/Toc.php:201-202 | text without either keyword has no placeholder match |
| `Placeholders.MarkersFromIsLeftmost` | classes/Toc.php:201-202 | the placeholder search misses nothing: at every position from the start of the search that no match found covers, the pattern does not match |
| `Placeholders.MarkersIsLeftmost` | classes/Toc.php:201-202 | at a position of the content that no placeholder match covers, the pattern does not match |
| `Placeholders.SelectFor` | classes/Toc.php:209-229 | the loop over the outline computes the selection `Select` of a marker |
| `Placeholders.Preceding` | classes/Toc.php:217-219 | the headings before the marker form a leading run of the outline |
| `Placeholders.MiniTocSlice` | classes/Toc.php:216-228 | on an outline with increasing offsets, `[MINITOC]` selects the maximal run of headings after the marker that are deeper than the last heading before it, and that heading is the anchor (`MiniTocAt`) |
| `Placeholders.MiniTocSliceBounds` | classes/Toc.php:216-228 | the selected headings follow the marker and are deeper than the anchor, the first heading after them is not, and the anchor exists exactly when some heading precedes the marker |
| `Placeholders.TocSelectsAll` | classes/Toc.php:213-214 | `[TOC]` selects the whole outline with no anchor |
| `Placeholders.Renderings` | classes/Toc.php:205-242 | one rendering per marker, each from that marker's own selection |
| `Placeholders.ReplacePlaceholders` | classes/Toc.php:248-253 | the final replacement puts the i-th rendering in place of the i-th marker, and the empty string where no rendering is left |
| `Placeholders.SpliceMarkers` | classes/Toc.php:248-253 | the replacement loop keeps the text between non-overlapping markers and puts the i-th rendering (or the empty string past the last one) in the i-th marker's place |
| `Placeholders.SplicedPieces` | classes/Toc.php:249-253 | the text before the first marker is kept and the marker becomes the first rendering |
| `Placeholders.Process` | classes/Toc.php:194-257 | `process` finds the markers, renders a selection for each when there is one, tocifies, then replaces the markers of the tocified content |
| `Placeholders.NoPlaceholders` | classes/Toc.php:199-256 | with a hexadecimal digest, content without placeholders, in any letter case, is only tocified |
| `Placeholders.OutlineIncreasing` | classes/Toc.php:204 | the outline `process` selects from has increasing offsets, so `MiniTocSlice` applies to it |

## Left out

- `toc.php` is not part of this model. It is plugin lifecycle plumbing: event subscription, Twig registration, assets and configuration merging.
- The Twig call in `process` is the `render` parameter. The options merged into the template variables are left to it.
- The `static $i` of the replacement callback starts at 0 in every call here. Whether it carries over between calls of `process` is a PHP runtime detail.
- `iconv` transliteration and `md5` are functions in `Ids.Host`. `Ids.GeneratedIdIsSlug` assumes a 32-character lowercase hexadecimal digest.
- `htmlspecialchars_decode` is modelled only for `&amp; &lt; &gt; &quot;`.
- PCRE is modelled only where it affects the result: the alternation order, giving back digits of `h\d+`, the first `>`, the lazy text up to a case-insensitive closing tag, and resuming after each match. Characters stand for bytes, and only ASCII is classified.
- `Outline.LevelOf`: `(int)` of more digits than a PHP integer holds saturates in PHP; here the level is unbounded.
- `Outline.MapTree`: on an empty list it returns empty. The PHP code first evaluates `min([])`, which warns in PHP 5/7 and throws in PHP 8; the model does not show the warning.
- `Attributes.EscapeDecodes`: the round trip is stated only for text without `'`. `htmlspecialchars` writes `'` as `&#039;`, and the decoder here covers only the four entities `hyphenize` meets.
- A failing regular expression (a PCRE backtracking or recursion limit) makes `preg_replace_callback` in `tocify` (classes/Toc.php:132) return null, and `process` (classes/Toc.php:248) then returns empty content. The model has no such limit: every scan completes.
- `htmlspecialchars` (classes/Toc.php:348) returns `''` for input that is not valid UTF-8. Characters here stand for bytes and every input is escaped character by character.
- `Rewrite.Options`: only `permalink` and `anchorlink` are read by `tocify`. The other options go to the template.
