# TemanDosen: the profile-ID cleaner, in Dafny

TemanDosen is a small Streamlit form. A lecturer pastes a Google Scholar
link or profile ID. The app fetches the profile's metrics and publications
and asks a hosted language model for a career roadmap. Its only
self-contained logic is `bersihkan_id` ("clean the ID"). That function turns
a pasted text into a bare profile ID:

- when the text holds `user=`, it takes the second piece of the text split at
  `user=` and keeps what comes before the first `&`;
- otherwise, when the text holds `&`, it keeps what comes before the first `&`;
- otherwise it returns the text unchanged.

The project models that function and the three small pure conditions the
form builds on it:

- the "ID detected" banner;
- the empty-ID guard;
- the selection of the first five publication titles.

Two modules:

- `PyStrings` (`py_strings.dfy`) models the Python string operations the
  cleaner uses, with Python's semantics. `In` is `pat in s`. `Find` is
  `s.find(pat)`. `Split` is `s.split(sep)`: the pieces between successive
  non-overlapping occurrences, scanned left to right. `Join` is
  `sep.join(pieces)`. The ghost predicates `OccursAt`, `Contains` and
  `FirstOccurrence` are the independent meaning these functions are proved
  against. `Join(Split(s, sep), sep) == s` is part of `Split`'s contract.
- `ScholarApp` (`scholar_app.dfy`) holds `CleanId` (`bersihkan_id`), the
  form's conditions and the title selection, with lemmas for each property.

app.py wraps the link branch in `try`/`except`. `CleanId` indexes the second
piece of the split directly, and Dafny proves that index is in range, so the
`except` has no counterpart in the model. `CleanIdLinkTotal` states why: once
`user=` occurs, the split always has a second piece.

The fallthrough returns the input exactly as given: app.py line 22 trims
nothing, and `CleanIdUnchangedIff` proves it.

## Model

| member | source | states |
|---|---|---|
| PyStrings.Find | app.py:15 | the result is the leftmost occurrence of the pattern, and it is absent exactly when the pattern does not occur (the search behind Python's `in`) |
| PyStrings.In | app.py:15 | `pat in s` holds exactly when `pat` is a substring of `s` |
| PyStrings.FindOrEnd | app.py:17 | the end of the first split piece is at most the length, is an occurrence unless it is the length, and has no occurrence before it |
| PyStrings.Split | app.py:17 | `s.split(sep)` has at least one piece; it has two or more exactly when `sep` occurs; no piece contains `sep`; joining the pieces with `sep` gives back `s` |
| PyStrings.SplitHead | app.py:21 | `s.split(sep)[0]` is the text before the first occurrence of `sep`, or all of `s` |
| PyStrings.SplitSecond | app.py:17 | when `sep` first occurs at `i`, `s.split(sep)[1]` exists and is the head of the split of the text after that occurrence |
| PyStrings.ContainsChar | app.py:20 | a one-character pattern such as `&` is contained exactly when that character is an element |
| PyStrings.PrefixKeepsAbsence | app.py:17 | a prefix of a text with no occurrence of a pattern has none either (why the result keeps no `user=`) |
| ScholarApp.CleanId | app.py:13-22 | the cleaned ID never contains `&` and never contains `user=`; the branches are fixed by `CleanIdLink`, `CleanIdAmpersand` and `CleanIdUnchangedIff` |
| ScholarApp.CleanIdLinkTotal | app.py:15-19 | once `user=` occurs the split has a second piece, so the `except` fallback is never taken and the result is `split("user=")[1].split("&")[0]` |
| ScholarApp.CleanIdLink | app.py:15-17 | with the first `user=` at `i`, the result is a prefix of the text after it, ends at the end of the text or at an `&` or `user=`, and has no `&` or `user=` starting before its end |
| ScholarApp.CleanIdLinkUpTo | app.py:15-17 | a stop (`&` or `user=`) at `j` after the first `user=`, with none before it, makes the result exactly the `j` characters after the marker |
| ScholarApp.CleanIdAmpersand | app.py:20-21 | without `user=` but with `&`, the result is the prefix before the first `&`: the character after it is `&` and there is no `&` in it |
| ScholarApp.CleanIdUnchangedIff | app.py:15-22 | the input comes back unchanged, with no trimming, exactly when it has neither `user=` nor `&` |
| ScholarApp.CleanIdIdempotent | app.py:13-22 | cleaning a cleaned ID returns it unchanged |
| ScholarApp.CleanIdIsSubstring | app.py:15-22 | the cleaned ID is a contiguous substring of the input, is no longer than it, and is a prefix of it when `user=` is absent |
| ScholarApp.CleanIdExampleLink | app.py:17 | the link `https://x/profile?user=3lUcciYAAAAJ&hl=en` cleans to `3lUcciYAAAAJ` |
| ScholarApp.ExampleLinkMarker | app.py:15 | in that link the first `user=` starts at index 18 |
| ScholarApp.ExampleLinkRest | app.py:17 | after that marker the first `&` or `user=` is at offset 12, and the 12 characters before it are `3lUcciYAAAAJ` |
| ScholarApp.CleanIdExampleBare | app.py:22 | the placeholder ID `3lUcciYAAAAJ` (app.py line 29) and the empty input come back unchanged |
| ScholarApp.IdDetected | app.py:30-33 | the "ID detected" banner (non-empty text that cleaning changed) shows exactly when the pasted text contains `user=` or `&` |
| ScholarApp.MissingId | app.py:51-53 | the guard that stops the analysis (empty cleaned ID) fires, without `user=`, exactly when the text is empty or starts with `&`; with the first `user=` at `i`, exactly when the text ends right after it or an `&` or `user=` starts there |
| ScholarApp.Titles | app.py:73 | one title per publication, the title at each index being that publication's |
| ScholarApp.FirstTitles | app.py:73 | at most five titles (all of them when there are fewer), in source order, each the title of the publication at the same index |

## Left out

- The Streamlit page: layout, inputs, select boxes, the button, status boxes, banners and `st.stop` (app.py lines 6-11, 24-57, 111-120). The two conditions the page tests are modelled as `IdDetected` and `MissingId`.
- The `scholarly` calls `search_author_id` and `fill` and the author record's `name`, `affiliation`, `hindex` and `citedby` fields (app.py lines 63-70). They are network scraping by a foreign library. A publication is modelled only by its title.
- ScholarApp.FirstTitles: a record without a `publications` list raises a `TypeError`, and a publication without a `bib` entry or a `title` in it raises a `KeyError` (app.py line 73); the outer `except` at line 117 reports both. The model takes the list and each publication's title as given, because the record comes from the foreign library.
- The Gemini API-key lookup, model construction, prompt text and `generate_content` call (app.py lines 80-109). They are an external language-model service and text glue.
- Exception reporting (app.py lines 117-120). It only displays a message.
- Retrying with backoff, guessing whether the input is a name or an ID, and a session result cache. None of these occurs in app.py, so there is nothing to model.
- PyStrings.Split: an empty separator, which Python rejects with `ValueError`, is excluded by a precondition. The cleaner only splits at the constants `user=` and `&`.
