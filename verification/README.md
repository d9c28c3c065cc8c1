# Channel playlist filter — a Dafny model

This project models the filtering core of `scripts/get_github_channels.py`.
The script collects English-language TV channels for four countries from two
kinds of public lists. Two pieces of it are pure logic, and both are modelled:

- `parse_m3u` reads an M3U playlist. The model takes the playlist as a sequence of lines.
  - Each `#EXTINF:` header is read together with the line after it.
  - The display name comes from the text after the first comma.
  - The group title comes from the `group-title="…"` attribute.
  - The country code comes from substring tests on the group title, tried in the
    order CA, US, GB, AU.
  - The group title is split into categories. Entries mentioning sport, kids,
    children, adult, xxx or porn are dropped.
  - A news entry is kept only when its name mentions an allowed network.
- The JSON filter inside `run_task` reads a list of decoded channel records. It keeps
  those that pass five tests and projects each kept record to five text fields.
  A `null` where the loop iterates, or where it calls a string method, raises; the
  exception ends the filter: `run_task` writes no CSV file and reports the
  failure instead.

Modules:

- `Wrappers`: `Option` and `Result`.
- `Selection`: the order-preserving selection that both filters perform (`Picks`,
  `PickedIndices`) and first-match search (`FirstWhere`).
- `Text`: the Python string operations the script uses:
  - `in`, `startswith` and `split(sep, 1)`;
  - `strip()` and `lower()`;
  - `re.split` on a character class, and `" ".join`.
- `News`: the `allowed_news` set.
- `Playlist`: `parse_m3u`. `ParseM3U` follows the source's index loop step by step.
  - Inside the `try` block the index moves past the header before the URL is read.
  - A `continue` then skips the loop's own increment.
  - An IndexError is swallowed.
  - Its result is proved equal to a declarative reference: the entries of all header
    lines, in line order.
- `ChannelApi`: the JSON record filter.
  - `Decide` is the loop body for one record.
  - `Admitted` is the declarative conjunction of the keep tests.
  - `FilterChannels` is the loop. It returns the kept rows, or the failure of the first
    record that raises.

## Model

| member | source | states |
|---|---|---|
| `Playlist.ParseM3U` | scripts/get_github_channels.py:59-88 | The index loop returns exactly the entries of the header lines in line order, so no header is skipped, even one right after a rejected header. Every returned entry passes all filters. There are no more entries than `#EXTINF:` lines. The loop terminates. |
| `Playlist.ReadHeader` | scripts/get_github_channels.py:64-87 | One `try` block. A header without a comma leaves the index unchanged and yields nothing. A header on the last line moves the index to the end and yields nothing. A non-`http` next line ends in `continue` with the index on that line, so it is examined again. Whenever the header has a comma, the index moves one line on. With a comma and a next line, the block ends in `continue` exactly when it yields no entry, so an `http` line that fails the country, exclusion or news test is examined again. Only a kept entry lets the loop step over the URL line, which is never a header. |
| `Playlist.NameOf` | scripts/get_github_channels.py:66 | A name exists exactly when the header has a comma. It never contains `" tvg-"` and never starts or ends with whitespace. |
| `Playlist.NameOfText` | scripts/get_github_channels.py:66 | The name is the stripped text between the first comma and the first `" tvg-"` after it. |
| `Playlist.GroupTitle` | scripts/get_github_channels.py:71-72 | The group title never contains a double quote. A non-empty title stands in the line between `group-title="` and a closing quote. Its exact value is fixed by `GroupTitleAtFirstKey`. |
| `Playlist.GroupTitleAtFirstKey` | scripts/get_github_channels.py:71-72 | The regex search yields the text between the first `group-title="` and the next quote. It yields "" when there is no such key, or when the first key is never closed. |
| `Playlist.CountryOf` | scripts/get_github_channels.py:74-79 | The code is "" or one of CA/US/GB/AU. It is "" exactly when no rule's substring occurs. Otherwise it is the code of the first rule, in the order CA, US, GB, AU, with a substring in the title. |
| `Playlist.CategoriesAreClean` | scripts/get_github_channels.py:81 | There is one category per `re.split` part. No category contains a separator or an upper-case ASCII letter, and none starts or ends with whitespace. |
| `Playlist.ExclusionIsPerCategory` | scripts/get_github_channels.py:81-82 | An excluded word occurs in the space-joined categories exactly when it occurs inside one category. The joining space never creates a match. |
| `Playlist.NewsIsPerCategory` | scripts/get_github_channels.py:83 | "news" occurs in the joined categories exactly when some category contains it. |
| `Playlist.HeaderEntry` | scripts/get_github_channels.py:66-85 | A header and its next line yield an entry exactly when all hold: the header has a comma, the stripped next line starts with `http`, a country rule matches, no excluded word occurs, and the news rule passes. The entry's name, group title and URL are the extracted ones. It satisfies `ValidEntry`. |
| `Playlist.UrlLineIsNotHeader` | scripts/get_github_channels.py:64-69 | A line that starts with `http` once stripped is never an `#EXTINF:` header. |
| `Playlist.SelectedEntriesValid` | scripts/get_github_channels.py:69-85 | Every selected entry's URL starts with `http`. Its country is in CA/US/GB/AU and is the one `CountryOf` picks. It has no excluded word and no blocked news. Its name has no `" tvg-"`. |
| `Playlist.SelectionBound` | scripts/get_github_channels.py:63-64 | There are no more entries than `#EXTINF:` lines. |
| `Playlist.SelectionInLineOrder` | scripts/get_github_channels.py:63-85 | The k-th entry comes from the k-th kept header. Headers are in increasing line order. Each entry is read from its header and the line right after it. |
| `Playlist.EveryHeaderExamined` | scripts/get_github_channels.py:63-69 | Every header whose entry passes the tests is among the kept headers. This includes a header that directly follows another header. |
| `Text.Strip` | scripts/get_github_channels.py:66-68 | The result is the slice of the input left after whitespace is removed at both ends. Everything removed is whitespace. The result neither starts nor ends with whitespace. |
| `Text.AfterFirst` | scripts/get_github_channels.py:66 | `split(sep, 1)[1]` exists exactly when `sep` occurs. The input is the text before the first `sep`, then `sep`, then the result. |
| `Text.BeforeFirst` | scripts/get_github_channels.py:66 | `split(sep, 1)[0]` is a prefix without `sep`. It ends where the first `sep` starts, or is the whole input when there is none. |
| `Text.Find` | scripts/get_github_channels.py:71 | Returns the first index where the substring occurs, or none exactly when it does not occur. |
| `Text.SplitJoinRoundTrip` | scripts/get_github_channels.py:81 | Splitting on the separator class and joining with one separator gives the input with every separator replaced by that one. The split loses nothing else. |
| `Text.SplitAny` | scripts/get_github_channels.py:81 | `re.split` yields at least one part, and no part contains a separator character. |
| `Text.Lower` | scripts/get_github_channels.py:81 | No ASCII capital remains. Every other character is kept unchanged. Each capital becomes the letter 32 code points above it, its lower-case form. The length is kept. |
| `Text.JoinedContains` | scripts/get_github_channels.py:82-83 | A word without the separator occurs in the joined parts exactly when it occurs in one part. |
| `News.NetworksListed` | scripts/get_github_channels.py:57 | The allow-rule holds exactly when the name contains MSNBC, CNN, BBC, "CBC News" or "CTV News". |
| `ChannelApi.Project` | scripts/get_github_channels.py:105-108 | Each of the five fields is the record's value when it has one, and "" when the member is missing or `null`. |
| `ChannelApi.Admitted` | scripts/get_github_channels.py:99-104 | An admitted record has an allowed country, which its row carries. It has non-null languages and categories and no null category name. When it is tagged news, its name is not null. |
| `ChannelApi.DecideRaisesExactly` | scripts/get_github_channels.py:100-104 | Which record raises, and with which failure. Null languages raise after the country test. Null categories raise after the language and NSFW tests. A null category name raises after those tests too. A null name raises for a news-tagged record that passes every earlier test. |
| `ChannelApi.Decide` | scripts/get_github_channels.py:99-108 | A record is kept exactly when it is `Admitted`. A kept row is the record's five fields, with a missing or null field written as "". A record that raises has an allowed country, because the country test comes first. |
| `ChannelApi.FilterChannels` | scripts/get_github_channels.py:98-108 | The loop succeeds exactly when no record raises. Otherwise it fails with the failure of the first record that raises. On success the rows are the kept records' projections in input order, each with an allowed country. |
| `ChannelApi.KeptRowsAreAdmitted` | scripts/get_github_channels.py:98-108 | The output rows, in input order, are the projections of admitted records only. |
| `ChannelApi.AdmittedRecordsAreKept` | scripts/get_github_channels.py:98-105 | Every admitted record is among the kept ones. |
| `Selection.PicksAreSelection` | scripts/get_github_channels.py:85 | The output has one value per kept position, in position order, and each value is the one at its position. |
| `Selection.PickedIndicesComplete` | scripts/get_github_channels.py:63-87 | Every position that has a value is kept: the selection skips nothing. |

## Left out

- Filesystem, logging, the clock, the network check and HTTP requests are left out. `parse_m3u` takes the playlist's lines, and the JSON filter takes decoded records. They are I/O.
- `text.splitlines()` is left out, and the lines are the input. It is not part of the filtering logic.
- `r.json()` is left out, and records arrive already typed. It is a foreign decoder. JSON values of unexpected types are not modelled: a non-string name, non-dict list elements, non-list `languages` or `categories`, and non-boolean `is_nsfw` truthiness. Only `true` flags a record as NSFW.
- The CSV writing, the summary strings, the thread pool and the table of download jobs are left out. They are I/O and orchestration. The model does not distinguish a `null` projected field from a missing one, because the CSV writer renders both as "".
- `Text.Strip` removes only ASCII whitespace, the separators 0x1C–0x1F, U+0085 and U+00A0, not every Unicode space. The model has no Unicode tables.
- `Text.Lower` lower-cases only ASCII letters. The model has no Unicode tables.
- `Playlist.ParseM3U` catches only the IndexErrors the `try` block can raise. No other exception can occur there for string input.
