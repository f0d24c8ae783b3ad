# Project Guardian 360: the rephrase resolver

This project models `get_rephrase` from `app.py`. The dashboard uses it to turn
a phrase a parent is about to say into a calmer suggested phrasing. The
function works in four steps:

1. It normalises the phrase: first lowercased, then stripped of whitespace at
   both ends. Whitespace inside the phrase is kept.
2. It picks one of two fixed, ordered (key, reply) libraries. The age group
   `"Child"` selects the child library. Every other age-group string selects
   the teen library.
3. It returns the reply of the first key, in declaration order, that occurs
   anywhere in the normalised phrase as an unanchored substring.
4. Otherwise it returns the fixed sentence "Try focusing on the boundary
   while offering a path forward with grace."

Files:

- `text.dfy` (module `Text`) covers the string operations the function uses:
  ASCII `str.lower`, `str.strip` with the ASCII whitespace of `str.isspace`,
  and `in` on strings. `in` is written as a left-to-right scan and proved
  equal to "occurs at some position".
- `rephrase.dfy` (module `Rephrase`) holds the two libraries as sequences of
  entries, which keeps the dictionaries' insertion order. It also holds the
  default sentence, the library selection, the first-match function, the
  resolver, and a `for`-loop method that mirrors the source loop and is
  proved equal to the function.
- `rephrase_properties.dfy` (module `RephraseProperties`) holds the lemmas.
  They cover which reply is returned, when the default is returned, that
  only the normalised phrase matters, how the age group picks the library,
  and concrete inputs.

The age group is modelled as a string, not as an enumeration. The source
tests `age_group == "Child"` and sends every other value to the teen branch.
The function returns one reply string, and its default is a constant
sentence.

## Model

| member | source | states |
|---|---|---|
| Text.IsSpace | app.py:6 | The whitespace `strip` removes is HT, LF, VT, FF, CR, the separators 0x1C-0x1F and space; none of it lies above space and none of it is an upper-case letter |
| Text.LowerChar | app.py:6 | An ASCII upper-case letter becomes its lower-case letter; every other character is unchanged; the result is never upper case |
| Text.Lower | app.py:6 | Lowercasing keeps the length and lowercases every character in place |
| Text.StripLeft | app.py:6 | Removing leading whitespace gives a suffix; everything removed is whitespace; the result does not start with whitespace |
| Text.StripRight | app.py:6 | Removing trailing whitespace gives a prefix; everything removed is whitespace; the result does not end with whitespace |
| Text.StripParts | app.py:6 | Stripping splits the string into leading whitespace, the result and trailing whitespace |
| Text.Strip | app.py:6 | `str.strip`: the result is no longer than the input and neither starts nor ends with whitespace |
| Text.StripEdgesFixed | app.py:6 | A string whose first and last characters are not whitespace is unchanged by stripping |
| Text.StripPadded | app.py:6 | Stripping ignores any whitespace added at either end |
| Text.StripIdempotent | app.py:6 | Stripping an already stripped string changes nothing |
| Text.LowerIdempotent | app.py:6 | Lowercasing twice is lowercasing once |
| Text.LowerStripCommute | app.py:6 | Lowercasing and stripping commute, because no whitespace character has a case |
| Text.IsSubstring | app.py:28 | `key in phrase` as a left-to-right scan: a contained key is never longer than the phrase, and the empty key is contained in every phrase |
| Text.IsSubstringIff | app.py:28 | The scan behind `key in phrase` succeeds exactly when the key occupies some position of the phrase |
| Text.SubstringChars | app.py:28 | A key holding a character the phrase lacks is not contained in it |
| Rephrase.Normalise | app.py:6 | `phrase.lower().strip()` lowercases first, then strips; the result equals stripping first and lowercasing after, holds no upper-case letter and has no whitespace at either end |
| Rephrase.SelectLibrary | app.py:9-25 | The child library is chosen if and only if the age group is exactly "Child"; the teen library is chosen for every other string |
| Rephrase.FirstMatch | app.py:27-29 | The chosen entry's key is contained in the phrase and no earlier key is; with no choice, no key is contained |
| Rephrase.Resolve | app.py:27-30 | The result of the loop is a reply of the library or the default sentence |
| Rephrase.GetRephrase | app.py:5-30 | The result is always a reply of the selected library or the default sentence; the function is total |
| Rephrase.ResolveLoop | app.py:27-30 | The imperative for-loop with early return computes exactly the first-match resolver |
| RephraseProperties.LibrariesHaveDistinctReplies | app.py:10-25 | Within each library the replies differ from each other and from the default, so a reply identifies its entry |
| RephraseProperties.LibraryEntries | app.py:10-30 | The six child (key, reply) pairs and the four teen pairs in declaration order, and the constant default sentence |
| RephraseProperties.ResolveFirst | app.py:27-29 | When key k is contained and no earlier key is, the loop returns reply k |
| RephraseProperties.ResolveNone | app.py:30 | When no key is contained, the loop returns the default |
| RephraseProperties.ResolveCharacterisation | app.py:27-29 | With distinct replies, reply k comes back if and only if key k is contained and no earlier key is |
| RephraseProperties.ResolveDefaultCharacterisation | app.py:27-30 | With distinct replies, the default comes back if and only if no key is contained |
| RephraseProperties.ResolveFirstDeclaredWins | app.py:27-29 | When keys i < j are both contained, reply j is never returned; the reply comes from key i or an earlier key |
| RephraseProperties.ReplyCharacterisation | app.py:9-29 | get_rephrase returns reply k of the selected library if and only if key k is in the normalised phrase and no earlier key is |
| RephraseProperties.DefaultCharacterisation | app.py:9-30 | get_rephrase returns the default if and only if no key of the selected library is in the normalised phrase |
| RephraseProperties.FirstDeclaredWins | app.py:9-29 | When two keys of the selected library both occur, the later key's reply is never returned |
| RephraseProperties.CaseAndEdgeSpaceInsensitive | app.py:6 | Padding the phrase with whitespace at either end, or changing the case of its letters, does not change the result |
| RephraseProperties.NormaliseIdempotent | app.py:6 | Normalising a normalised phrase changes nothing |
| RephraseProperties.NormalisedPhraseSameReply | app.py:6 | Passing in the normalised phrase gives the same reply as the original phrase |
| RephraseProperties.OtherGroupsUseTeenLibrary | app.py:9-25 | Every age group other than "Child" uses the teen library and behaves exactly like "Teen" |
| RephraseProperties.AlreadyNormal | app.py:6 | A phrase with no upper-case letter and no whitespace at either end is its own normal form |
| RephraseProperties.ChildLibraryUnrolled | app.py:10-17 | The loop over the child library is the chain of tests running, hit, quiet, crying, touch, dessert, then the default |
| RephraseProperties.TeenLibraryUnrolled | app.py:20-25 | The loop over the teen library is the chain of tests phone, room, talk back, late, then the default |
| RephraseProperties.ExampleRunning | app.py:11 | "running" with "Child" gives "Remember we walk when indoors." |
| RephraseProperties.ExampleUpperCasePadded | app.py:6 | "  RUNNING " with "Child" gives the same reply as "running" |
| RephraseProperties.ExampleFirstDeclaredWins | app.py:10-12 | Both "running" and "hit" occur in the normalised "running and hitting", and with "Child" the reply is the "running" one |
| RephraseProperties.ExampleWhiteMatchesHit | app.py:28 | "white" with "Child" gives the "hit" reply, because containment is not a word match |
| RephraseProperties.ExampleChocolateMatchesLate | app.py:24 | "chocolate" with any age group other than "Child" gives the "late" reply |
| RephraseProperties.ExampleTalkBack | app.py:23 | "talk back" with "Teen" gives the "talk back" reply |
| RephraseProperties.ExampleInnerSpaceSignificant | app.py:23 | "talk  back" with two spaces matches no teen key and gives the default |
| RephraseProperties.ExampleChildIgnoresTeenKey | app.py:9-17 | "phone", a teen key, with "Child" gives the default |
| RephraseProperties.ExampleOthersIgnoreChildKey | app.py:19-25 | "running", a child key, with any age group other than "Child" gives the default |

## Left out

- The Streamlit interface (app.py:32-88): page setup, sidebar inputs, the slider, tabs, buttons, the select box, the "Meltdown" alert and the scripts that show the partner's name. These are rendering only.
- Text.Lower and Text.IsSpace cover ASCII only. Python's Unicode case mapping and Unicode whitespace are not modelled; they come from Python's character tables. This changes results: Python lowers U+212A KELVIN SIGN to 'k', so "TAL\u212A BACK" with "Teen" gets the "talk back" reply in Python, while the model returns the default. Likewise U+00A0 at either end is stripped by Python but kept by the model.
- RephraseProperties.ResolveCharacterisation and RephraseProperties.ResolveDefaultCharacterisation assume that the replies are distinct. This holds for both libraries in app.py, as RephraseProperties.LibrariesHaveDistinctReplies proves. The lemmas about get_rephrase itself carry no such assumption.
