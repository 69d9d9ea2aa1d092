# nawala-checker domain report, modelled in Dafny

`check_domains.py` reads a comma- or newline-separated list of domains from
its configuration, keeps at most fifty, has the lookup page at
ninjamvp.asia scan them, reads the result table back into a mapping from
lower-cased domain to status text, classifies each status as not blocked,
blocked or unknown, and sends one report message with a header line and one
line per domain. This project models that logic and proves what it promises:

- `text.dfy` (module `Text`): the Python string built-ins the script relies
  on (`strip`, `lower`, `split`, `join` and the substring test), with the
  facts about them the other modules need.
- `domains.dfy` (module `Domains`): `load_domains`, as a function of the
  configuration string.
- `status.dfy` (module `Status`): `normalize_status`, as a function from
  status text to a glyph and a label.
- `scrape.dfy` (module `Scrape`): the loop of `check_domains_ninjamvp` that
  turns result-table rows into the results mapping, as a method proved
  against a specification function.
- `report.dfy` (module `Report`): `main`, with the scrape as a parameter and
  the message it would send as its result; the report-building loop is a
  method proved against a specification function.

The emoji are the code points the script writes: U+26AA (white), U+1F7E2
(green), U+1F534 (red) and U+274C (the failure message). The label field of
a verdict is called `caption` because `label` is a reserved word in Dafny.

## Model

| member | source | states |
|---|---|---|
| Text.Split | check_domains.py:56 | `split` yields at least one piece and no piece contains the separator |
| Text.IsSpace | check_domains.py:56 | `str.isspace`, the set of characters `strip()` removes here and at lines 63 and 108-109; StripSpec and StripEmpty characterise stripping by it |
| Text.Strip | check_domains.py:56 | `strip` never lengthens its input; StripSpec characterises it fully |
| Text.StripSpec | check_domains.py:56 | `strip` returns text with no whitespace at either end, found in the input with only whitespace before and after it |
| Text.StripStripped | check_domains.py:56 | stripping text that has no whitespace at its ends changes nothing |
| Text.StripEmpty | check_domains.py:63-65 | `strip` gives the empty string exactly when the input is whitespace only |
| Text.StripKeepsOut | check_domains.py:56 | stripping adds no character that was not in the input |
| Text.LowerChar | check_domains.py:63 | lower-casing maps A-Z to a-z and leaves whitespace alone, and makes no whitespace out of other characters |
| Text.Lower | check_domains.py:63 | `lower` keeps the length, character by character as LowerChar |
| Text.LowerIdempotent | check_domains.py:108 | lower-casing twice is lower-casing once, so a key read from the table is already in the form `d.lower()` gives |
| Text.LowerStripped | check_domains.py:63 | lower-casing text with no whitespace at its ends leaves none there |
| Text.Contains | check_domains.py:68-72 | the substring test `p in s`: some offset of `s` holds `p`; ContainsAround, ContainsLowerStrip, MissingChar and ContainsInner characterise it |
| Text.ContainsAround | check_domains.py:63-72 | for a phrase with no whitespace at its ends, text contains it exactly when the part of the text that only whitespace surrounds does |
| Text.MissingChar | check_domains.py:68-72 | the substring test `p in s` fails when `s` lacks a character of `p` |
| Text.ContainsInner | check_domains.py:68-72 | when `s` contains `p`, it contains every phrase inside `p` |
| Text.ContainsLowerStrip | check_domains.py:63-72 | testing a phrase with no whitespace at its ends on the stripped lower-cased text answers as on the whole lower-cased text |
| Text.SplitAt | check_domains.py:56 | splitting at a separator splits the two sides independently |
| Text.JoinSplit | check_domains.py:56 | joining the pieces of a split with the same separator rebuilds the text |
| Text.Join | check_domains.py:154 | a join starts with its first piece, so the message starts with the header line; SplitJoin and JoinSplit characterise it |
| Text.SplitJoin | check_domains.py:154 | splitting a join of separator-free pieces gives back the pieces |
| Domains.NewlinesToCommas | check_domains.py:55 | newline replacement keeps the length and leaves no newline |
| Domains.StripAll | check_domains.py:56 | one stripped piece per input piece |
| Domains.StripAllSpec | check_domains.py:56-57 | every stripped piece has no whitespace at its ends and is empty exactly when its input piece was whitespace only |
| Domains.DropEmpty | check_domains.py:57 | the filter keeps exactly the non-empty pieces: every kept piece is non-empty and from the input, and every non-empty input piece is kept |
| Domains.DropEmptyConcat | check_domains.py:57 | filtering a concatenation is filtering each part and concatenating, so the kept pieces stay in input order |
| Domains.LoadDomains | check_domains.py:50-59 | an empty configuration gives no domains |
| Domains.LoadDomainsPipeline | check_domains.py:51-57 | the emptiness test only short-cuts: the replace-split-strip-filter pipeline alone gives the same list for every input |
| Domains.DomainsWellFormed | check_domains.py:55-57 | every parsed domain is non-empty, has no whitespace at either end, and holds no comma and no newline |
| Domains.LoadDomainsConcat | check_domains.py:55-57 | a comma or newline splits the configuration into halves parsed independently, the left half's domains first, in order |
| Domains.LoadFragment | check_domains.py:55-57 | a fragment without separators gives its stripped text as the one domain, or nothing when it is whitespace only |
| Domains.LoadOne | check_domains.py:55-57 | a well-formed domain on its own parses to itself |
| Domains.LoadJoin | check_domains.py:55-57 | joining well-formed domains with commas or with newlines and parsing gives back the same list |
| Domains.LoadDomainsIdempotent | check_domains.py:50-59 | parsing the comma-joined parse again changes nothing |
| Status.GlyphText | check_domains.py:66-74 | each glyph is written as one character with no newline |
| Status.GlyphsDistinct | check_domains.py:66-74 | the three glyphs are written differently |
| Status.SaysNotBlocked | check_domains.py:68 | the not-blocked phrase test on lower-cased stripped text; GlyphIff and TestsIgnoreStrip characterise it |
| Status.SaysBlocked | check_domains.py:71 | the blocked phrase test on lower-cased stripped text; GlyphIff and TestsIgnoreStrip characterise it |
| Status.NormalizeStatus | check_domains.py:62-74 | the label is never empty and is "Unknown", "Not Blocked", "Blocked" or the stripped input |
| Status.CaptionKeepsOut | check_domains.py:74 | a character in neither the input nor the fixed labels is not in the label |
| Status.CaptionNewline | check_domains.py:62-74 | the label holds a newline only when the text holds no phrase of either family and keeps a newline inside after stripping |
| Status.TestsIgnoreStrip | check_domains.py:63-72 | stripping before the phrase tests changes none of their answers; nothing is left exactly for whitespace-only text |
| Status.BlankIsUnknown | check_domains.py:63-66 | empty or whitespace-only text gives the white glyph and "Unknown" |
| Status.NotBlockedWins | check_domains.py:68-69 | text holding a not-blocked phrase in any case gives green and "Not Blocked", whatever else it holds |
| Status.BlockedOtherwise | check_domains.py:71-72 | text holding a blocked phrase and no not-blocked phrase gives red and "Blocked" |
| Status.UnrecognisedShownVerbatim | check_domains.py:74 | non-blank text with no phrase of either family keeps the white glyph and its own stripped text, which is non-empty, as label |
| Status.GlyphIff | check_domains.py:62-74 | green exactly for the not-blocked family, red exactly for the blocked family without the other, white exactly for neither |
| Status.PhrasesOverlap | check_domains.py:68-72 | text with "not blocked" or "tidak terblokir" also matches the blocked family, yet is classified green |
| Status.UnknownHasNoPhrase | check_domains.py:68-72 | the default status "Unknown" holds no phrase of either family |
| Status.DefaultIsUnknown | check_domains.py:150-151 | the default status "Unknown" gives the white glyph and the label "Unknown" |
| Scrape.HasStatus | check_domains.py:104-106 | a row with fewer than two cells is skipped; CollectedStep and CollectedKeys characterise its effect |
| Scrape.RowKey | check_domains.py:108 | the key of a row is its first cell stripped and lower-cased; RowCells pins it as the lower-cased first cell with only its surrounding whitespace removed |
| Scrape.RowStatus | check_domains.py:109 | the status of a row is its second cell stripped; RowCells characterises it |
| Scrape.RowCells | check_domains.py:108-109 | a key is the lower-cased first cell with only its surrounding whitespace removed, has no whitespace at its ends and is already lower-cased; a status has no whitespace at its ends and is the second cell with only its surrounding whitespace removed |
| Scrape.CollectedStep | check_domains.py:103-111 | reading one more row stores its stripped status under its stripped lower-cased key when it has two cells, and changes nothing otherwise |
| Scrape.CollectResults | check_domains.py:100-113 | the row loop builds exactly the mapping of the rows read in order |
| Scrape.CollectedKeys | check_domains.py:103-111 | a key has a result exactly when some row with at least two cells carries it |
| Scrape.CollectedLastWins | check_domains.py:111 | the last row carrying a key decides its status |
| Report.ReportLineAt | check_domains.py:147-152 | the report has one line more than the domains, the header first, and line j + 1 is the line of domain j |
| Report.ReportLinesStep | check_domains.py:149-152 | one more domain appends its line at the end |
| Report.BuildReport | check_domains.py:147-152 | the loop builds the header followed by one line per domain in input order |
| Report.Run | check_domains.py:119-154 | no domains: the fixed no-domains message and no browser; otherwise the first min(n, 50) domains are scanned, a failure gives the error message and a success the report joined with newlines |
| Report.StatusOf | check_domains.py:150 | `results.get(d.lower(), "Unknown")`; LookedUpLine and MissingDomainIsUnknown characterise it |
| Report.ReportLine | check_domains.py:150-152 | the loop body: look up, classify, format; LookedUpLine and MissingDomainIsUnknown characterise it |
| Report.LookedUpLine | check_domains.py:150-152 | a domain whose lower-cased form is a key of the results is reported with the status stored under that key |
| Report.MissingDomainIsUnknown | check_domains.py:150-152 | a domain without a result row is reported with the white glyph and "Unknown" |
| Report.UnscannedDomainLine | check_domains.py:103-152 | a domain that no row of the result table carries is reported with the white glyph and "Unknown" |
| Report.FormatLine | check_domains.py:152 | the f-string of a report line; FormatLineParts characterises it |
| Report.FormatLineParts | check_domains.py:152 | a report line is the domain as given, then ": ", the glyph, a space, and the label, which ends the line |
| Report.FormatLineNoNewline | check_domains.py:152 | a report line holds a newline only if its domain or label does |
| Report.LineHasNoNewline | check_domains.py:150-152 | a domain's report line holds no newline when neither the domain nor any scraped status does |
| Report.ReportHasNoNewline | check_domains.py:147-152 | no report line holds a newline when neither a domain nor the label shown for it does |
| Report.MessageLines | check_domains.py:147-154 | the message splits back into exactly the report's lines, one header and one per domain, when neither a domain nor the label shown for it holds a newline |

## Left out

- `send_telegram` (check_domains.py:18-35): a network call; `Run` returns the message it would send instead.
- `setup_driver` and the browser steps of `check_domains_ninjamvp` (check_domains.py:38-47, 82-98): the browser is not modelled; the scrape is a parameter of `Run` from the submitted domains to either the table rows, each as its cell texts, or the text of the exception raised.
- The environment reads (check_domains.py:11-13): the configuration string is a parameter of `Run` and `LoadDomains`.
- The console logging (`print` calls): it has no effect on the result.
- The `driver.quit()` calls and the exceptions they swallow (check_domains.py:133-136, 142-145): they do not affect the message.
- Report.Run: which exceptions the scrape raises and how Python renders them as text is not modelled; the error text is part of the scrape's outcome.
- Status.NormalizeStatus: the `None` case of `status_text or ""` is not modelled; every status the script passes is a string, so it cannot arise there.
- Text.LowerChar: only A-Z and U+212A KELVIN SIGN are lower-cased; Python's full Unicode lower-casing, including mappings that change the length, is not modelled. This affects only domains and statuses outside ASCII.
- Report.Run: a failure to start the browser is not represented. `setup_driver()` runs at check_domains.py:129, before the `try` at line 130, so such a failure ends the run with an uncaught exception and no message; `Run` always produces a message once there are domains.
- Report.MessageLines: holds only when no domain and no label shown contains a newline. Domains never do (DomainsWellFormed). By CaptionNewline, a label can hold one only when its status matches no phrase and keeps a newline inside after stripping (check_domains.py:74); such a status makes the sent message carry more lines than the report has entries.
