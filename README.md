# Cloudinary-to-S3 migration: the URL and key logic, in Dafny

The migration script copies media assets (images, videos, raw files) from a
Cloudinary account to an S3-compatible bucket. For each batch of Cloudinary
resource URLs it optionally keeps only the URLs under some folders, turns
every URL into a `[source URL, S3 key]` pair, and before the first batch
shows a sample of where the first few keys will land. This project models
those three pieces of string logic and proves what they promise:

- `StorageMigration.SourceToTargetMapper` (`source_to_target_mapper`) gives
  one pair per URL, in order. By default a key is the text after the last
  `(image|video|raw)/upload/v<digits>/` in the URL, or the whole URL if there
  is no such segment. With `keep_cloud_name_in_path` set, a key is the text
  after the third `/`, which drops scheme and host. If a parent path is
  given, the key is put behind `parent.strip("/") + "/"`.
- `StorageMigration.FilterUrlsByFolderNames`
  (`filter_urls_base_on_folder_names`) keeps the URLs that contain one of the
  comma-separated folder names. Each name is stripped of surrounding
  whitespace first. Each kept URL appears once, in no particular order.
- `StorageMigration.ShowSampleMapping` (`show_sample_mapping`) gives the
  `source ==> endpoint/bucket/key` lines for at most five leading pairs.

Files:

- `py_str.dfy`, module `PyStr`: the Python `str` operations the script uses
  (`split`, `join`, `strip`, `in`), with their round trips and
  characterisations.
- `upload_pattern.dfy`, module `UploadPattern`: the regular expression,
  matched position by position, and `re.split(...)[-1]` as a left-to-right
  scan for non-overlapping matches. The proofs show that this scan agrees with
  a description of the pattern that does not use the scanner.
- `storage_migration.dfy`, module `StorageMigration`: the mapper, the folder
  filter and the sample lines.

Behaviours of the code worth knowing, each stated by the model:

- The default key is cut after the *last* upload segment, not the first,
  because `re.split(...)[-1]` takes the last piece (`LastPieceSpec`).
- A key can be empty. Examples are a URL ending in `/upload/v1/`, or
  `https://host/` with the structure kept.
- A parent path made only of slashes (e.g. `/`) is non-empty, so the code
  still adds a `/`. The key then starts with `/`. `TargetKeyShape` states
  this case.
- Only the parent path is stripped of `/`. A base key that starts with `/`
  gives `//` after the parent path: `https://host//foo` with the structure
  kept and parent path `backup` gives `backup//foo`
  (`SlashLedBaseKeyDoublesSlash`). The same holds for a bucket name that
  starts with `/` in the sample lines.

## Model

| member | source | states |
|---|---|---|
| `StorageMigration.SourceToTargetMapper` | storage_migration.py:118-128 | one pair per input URL, in input order; the first component of pair `i` is URL `i` unchanged and the second is that URL's target key |
| `StorageMigration.TargetKey` | storage_migration.py:121-126 | the key of one URL; its shape is stated by `TargetKeyShape`, `SlashLedBaseKeyDoublesSlash` and `BaseKeyIsSuffix` |
| `StorageMigration.DefaultKey` | storage_migration.py:122 | the default-mode key, `re.split(...)[-1]`; stated by `UploadPattern.LastPieceSpec` and `DefaultKeyOfUploadUrl` |
| `StorageMigration.StructuredKey` | storage_migration.py:124 | the key when the structure is kept; stated by `StructuredKeyAfterThirdSlash` and `StructuredKeyDropsSchemeAndHost` |
| `StorageMigration.StructuredKeyAfterThirdSlash` | storage_migration.py:124 | keeping the structure, the key is the text after the URL's third `/`, and empty when the URL has fewer than three `/` |
| `StorageMigration.StructuredKeyDropsSchemeAndHost` | storage_migration.py:124 | keeping the structure, `scheme://host/rest` maps to `rest` when scheme and host hold no `/` |
| `StorageMigration.BaseKeyIsSuffix` | storage_migration.py:121-124 | in either mode the key before the parent path is a suffix of the URL |
| `StorageMigration.DefaultKeyOfUploadUrl` | storage_migration.py:122 | a URL that is prefix + upload segment (after a word boundary) + rest, where no match can start in the rest, maps to the rest |
| `StorageMigration.DefaultKeyExample` | storage_migration.py:122 | `https://res.example.com/demo/image/upload/v123/samples/cat.jpg` maps to `samples/cat.jpg` |
| `StorageMigration.TargetKeyShape` | storage_migration.py:125-126 | an empty parent path leaves the base key as is; a non-empty one gives the parent path stripped of `/`, one `/`, then the base key. If the parent path has a character other than `/`, the key does not start with `/` and the stripped parent path does not end with `/`. A parent path of slashes only gives `/` + base key |
| `StorageMigration.SlashLedBaseKeyDoublesSlash` | storage_migration.py:125-126 | with a non-empty parent path, a base key starting with `/` gives `//` where the parent path and the base key meet |
| `StorageMigration.TargetKeyExample` | storage_migration.py:122-126 | the example URL maps to `samples/cat.jpg` without a parent path and to `backup/samples/cat.jpg` with parent path `backup` |
| `StorageMigration.FilterUrlsByFolderNames` | storage_migration.py:108-116 | the result has no duplicates, and a URL is in it exactly when it is in the input and contains one of the whitespace-stripped comma-separated names |
| `StorageMigration.Selected` | storage_migration.py:109-114 | a URL contains one of the whitespace-stripped comma-separated names; tied to the loops by `CollectedIsSelected` |
| `StorageMigration.AppendHits` | storage_migration.py:113-115 | the inner loop appends, in order, exactly the URLs that contain the name |
| `StorageMigration.Distinct` | storage_migration.py:116 | `list(set(xs))`: no duplicates, and exactly the elements of `xs` |
| `StorageMigration.HitsMembers` | storage_migration.py:113-115 | the URLs the inner loop appends are exactly those that contain the name |
| `StorageMigration.CollectedMembers` | storage_migration.py:111-115 | the two loops append exactly the URLs that contain one of the stripped pieces |
| `StorageMigration.CollectedIsSelected` | storage_migration.py:109-115 | what the loops collect over the whole comma-separated list is exactly the input URLs the list selects |
| `StorageMigration.TrailingCommaSelectsAll` | storage_migration.py:109-114 | a list ending with `,` has an empty last name, and the empty name selects every URL |
| `StorageMigration.SelectedBySingleName` | storage_migration.py:109-114 | a list of one name, without commas or surrounding whitespace, selects exactly the URLs containing that name |
| `StorageMigration.FolderFilterExample` | storage_migration.py:108-116 | `/samples/rats` selects `.../samples/rats/a.jpg` and not `.../samples/birds/b.jpg` |
| `StorageMigration.SampleTarget` | storage_migration.py:134 | `endpoint.strip("/") + "/" + bucket + "/" + key`; its shape is stated by `SampleTargetShape` |
| `StorageMigration.SampleLine` | storage_migration.py:135 | `source ==> target` for one pair; stated per line by `SampleLines` and `ShowSampleMapping` |
| `StorageMigration.SampleLines` | storage_migration.py:133-135 | for at most `n` leading pairs, one `source ==> target` line each, in order |
| `StorageMigration.ShowSampleMapping` | storage_migration.py:130-135 | one line per leading pair, `min(len(pairs), 5)` lines; line `i` shows pair `i` with its target rewritten as endpoint/bucket/key |
| `StorageMigration.SampleTargetShape` | storage_migration.py:134 | a sample target is the stripped endpoint followed by `/bucket/key`. If the endpoint has a character other than `/`, the target does not start with `/` and the stripped endpoint does not end with `/` |
| `UploadPattern.MatchAt` | storage_migration.py:122 | where the match starting at a position ends, if one does; stated without the scanner by `MatchAtIsPattern` |
| `UploadPattern.MatchAtIsPattern` | storage_migration.py:122 | a match runs from `p` to `e` exactly when `p` is at a word boundary and the text between is `image`, `video` or `raw`, then `/upload/v`, one or more digits, and `/` |
| `UploadPattern.MatchesDoNotOverlap` | storage_migration.py:122 | no match of the pattern starts strictly inside another |
| `UploadPattern.LastPiece` | storage_migration.py:122 | `re.split(pattern, s)[-1]`; stated by `LastPieceSpec`, `LastPieceIsWholeIff` and `LastPieceIsSuffix` |
| `UploadPattern.LastPieceSpec` | storage_migration.py:122 | `re.split(pattern, s)[-1]` is `s` when the pattern does not occur in it; otherwise it is the text after a match after which no match starts |
| `UploadPattern.LastPieceIsWholeIff` | storage_migration.py:122 | the last piece equals the whole string exactly when the pattern does not occur |
| `UploadPattern.LastPieceIsSuffix` | storage_migration.py:122 | the last piece is a suffix of the string |
| `PyStr.Split` | storage_migration.py:109 | `s.split(sep)` has one field more than `s` has separators, and no field contains the separator |
| `PyStr.Join` | storage_migration.py:124 | `sep.join(parts)`; stated as the inverse of `Split` by `JoinSplit` and `SplitJoin` |
| `PyStr.JoinSplit` | storage_migration.py:124 | `sep.join(s.split(sep)) == s` |
| `PyStr.SplitJoin` | storage_migration.py:124 | splitting the join of separator-free parts gives back the parts |
| `PyStr.JoinDropSplit` | storage_migration.py:124 | `sep.join(s.split(sep)[n:])` is the text after the `n`-th separator |
| `PyStr.SplitTrailingSeparator` | storage_migration.py:109 | a string ending with the separator has an empty last field |
| `PyStr.Strip` | storage_migration.py:126 | `s.strip(chars)` is the middle of `s` left after removing characters of `chars` from both ends. It neither starts nor ends with one, and it is empty exactly when `s` consists of them |
| `PyStr.StripUnchanged` | storage_migration.py:112 | a string that neither starts nor ends with a stripped character is unchanged by `strip` |
| `PyStr.IsSubstring` | storage_migration.py:114 | `piece in url`; stated by `MissingCharNotSubstring` and `EmptyIsSubstring` |
| `PyStr.MissingCharNotSubstring` | storage_migration.py:114 | a piece holding a character the URL lacks is not in the URL |
| `PyStr.EmptyIsSubstring` | storage_migration.py:114 | the empty piece is in every string |

## Left out

- `migrate_cloudinary_resources` (storage_migration.py:31-106) is not modelled. It is Cloudinary pagination with `next_cursor`, a thread pool with `as_completed`, a progress bar and an interactive `input()` confirmation, all I/O and concurrency. Two defects there are not reproduced:
  - Lines 81-88 inspect only the last future's result.
  - Lines 35 and 51 pass an already split list to the filter, which calls `.split` on it. The filter is modelled by its own body, taking a comma-separated string.
- `migrate_data` (storage_migration.py:139-168): HTTP GET and S3 `head_object`/`put_object`, network I/O behind external SDKs.
- `set_cloudinary_config` and `create_s3_resource_client` (storage_migration.py:12-29): wrappers around SDK constructors.
- `run` and the argument parser (storage_migration.py:170-287): command-line plumbing.
- Output from `show_sample_mapping`: the model gives only the per-pair lines. It leaves out the printing itself and the header, dashes and blank line around them.
- `\b` word characters: `UploadPattern.IsWordChar` covers ASCII letters, digits and `_`. Python's `re` on `str` also counts other Unicode letters and digits as word characters. So a type name that directly follows a non-ASCII letter is a match in this model, though Python would not match it.
- `PyStr.Whitespace` is the set of code points for which Python's `str.isspace()` is true, so `strip()` is modelled for those characters exactly.
- The order of `list(set(...))` is Python's hash order. `StorageMigration.Distinct` picks elements in an unspecified order, so the model fixes no order at all.
- `StorageMigration.DefaultKeyOfUploadUrl`: its condition on the rest of the URL (no `i`, `v` or `r`) is a simple sufficient condition. The general case, "the key is the text after the last match", is `UploadPattern.LastPieceSpec`.
