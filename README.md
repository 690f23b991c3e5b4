# s3-indexer listing core, in Dafny

s3-indexer is a small App Engine (Python 2.7) web application that shows an S3
bucket as a browsable directory listing. For a requested path it:

- lists the objects and common prefixes under that path;
- turns each one into a `File` or a `Folder` row;
- formats sizes with a unit letter and timestamps as `DD-Mon-YYYY HH:MM:SS`;
- renders the page and caches it in memcache under a digest of the path;
- serves the cached page until the request carries a `flush` argument.

This project models that core, all of it in `main.py`:

- `decimal.dfy` (module `Decimal`): decimal digit strings. This is what `str(n)`,
  `len(str(n))`, `int(s)` and zero-padded `%02d`-style fields mean on
  non-negative integers.
- `file_size.dfy` (module `FileSize`): `format_fsize`.
  - `FormatFsize` is the source's `while` loop, proved equal to the function
    `FormatSize` wherever `round` does not overflow.
  - `SizeUnit` picks the unit.
  - `RenderSize` is the three output branches.
- `timestamp.dfy` (module `Timestamp`): `format_timestring`. It is a parse
  (`Parse`: the layout check, then `datetime`'s range checks) followed by a
  print (`Display`).
- `entities.dfy` (module `Entities`):
  - the listing entries (`ListingEntry`);
  - the rows (`Entity` with `File` and `Folder`);
  - `os.path.splitext` and `File.ext`;
  - one step of the listing loop (`EntityOf`);
  - the loop itself, as the method `BuildEntities` proved equal to `EntitiesOf`.
- `index.dfy` (module `Index`): the `index` handler.
  - The class `Memcache` holds the cached pages as a `map`.
  - `Response` is the page the handler returns, as a function of the cache it
    finds.
  - The method `Index` performs the get, the rebuild and the set. It is proved
    to return `Response` and to change the cache only at the page id, only
    after a rebuild that memcache accepted.
- `wrappers.dfy`: the `Option` type. `None` stands for Python's `None`
  fall-through and for a raised `ValueError` or `OverflowError`.

Semantics followed are those of Python 2.7:

- `key.size` is an `int`, so `fsize / 1024` is floor division. The model works
  on `nat`.
- `round` converts its argument to a double before rounding. Below 2^53 it
  gives the integer back. Above that the converted value may differ, but both
  have more than three digits, so the loop's test does not change. From
  2^1024 - 2^970 on, the conversion raises `OverflowError`; the model reports
  this as a separate outcome of `FormatFsize`.
- `"{:03.1f}"` prints a one-digit value followed by `.0`.

Outside services are parameters of the model:

| service in the source | parameter in the model |
|---|---|
| bucket listing | the `listing` sequence, each object carrying its `generate_url` link |
| `hashlib.md5(...).hexdigest()` | a `digest` function |
| `render_template` | a `render` function |
| `request.url` | `url` |
| `request.args.get('flush')` | `flush: Option<string>` |
| success of `memcache.set` | `accepted` |

Points where the model follows main.py's exact behaviour:

- Sizes beyond the last unit make `format_fsize` return `None`. The code does
  not clamp to `E`, and raises only where `round` overflows.
- A size that makes `round` overflow fails the whole request, like a refused
  timestamp. Only `AttributeError` is caught (main.py:107).
- `strptime` matches the pattern case-insensitively, so `t` and `z` are
  accepted as well.
- Python 2.7's `strftime` refuses years before 1900, so those timestamps fail.
- No zone suffix is printed.
- A `flush` value is honoured whenever it is a non-empty string, `"0"`
  included.
- After a flush the cache is overwritten only when memcache accepts the write.
- The code has no login or access gate, and no handling of a failed cache
  read.

## Model

| member | source | states |
|---|---|---|
| Decimal.DecimalLength | main.py:25-35 | `len(str(n))` is 1, 2 or 3 exactly for 0..9, 10..99 and 100..999, and more than 3 from 1000 on |
| Decimal.DecimalRoundTrip | main.py:31-36 | `int(str(n)) == n`: the printed digits of a size read back as the size |
| Decimal.ZeroPaddedRoundTrip | main.py:41-42 | a value printed zero-padded to a width it fits reads back as itself: the `%Y`/`%m`/`%d`/`%H`/`%M`/`%S` fields of a printed date parse back to it |
| Decimal.DigitsRoundTrip | main.py:41-42 | a field of digits read as a number and printed again at its width gives the field back: input fields survive parse then print |
| FileSize.SizeUnit | main.py:22-29 | the unit index never exceeds 6, so `prefixes[incr]` never runs past `E` |
| FileSize.SizeUnitSpec | main.py:24-29 | every unit below the chosen one still leaves at least 1000, and the chosen one leaves below 1000 unless it is `E` |
| FileSize.SizeUnitUnique | main.py:24-29 | those conditions determine the unit: any index meeting them is the one chosen |
| FileSize.SizeUnitMonotone | main.py:24-29 | a larger size never gets a smaller unit |
| FileSize.FormatFsize | main.py:21-36 | the loop (divide by 1024 while more than three digits, at most six times, then the branch by digit count) returns exactly `FormatSize(size)`; `round` in its test overflows exactly from 2^1024 - 2^970 on |
| FileSize.FloatOverflowPastLastUnit | main.py:25-29 | the overflow bound of `round` lies above 1000 * 1024^6 bytes |
| FileSize.OverflowOnlyPastFallThrough | main.py:25-36 | every size that makes `round` overflow would otherwise have fallen through all branches, to `None` |
| FileSize.RenderSizeShape | main.py:31-36 | for one scaled value and unit: five characters, the number field, a blank, the unit letter |
| FileSize.FormatSizeShape | main.py:31-36 | every string returned has five characters. A value of 100..999 is printed as is, 10..99 after one blank and 0..9 followed by `.0`; then a blank and the unit letter |
| FileSize.FormatSizeValue | main.py:31-36 | the number field of a returned string is all digits and reads back as the scaled size |
| FileSize.FormatSizeNone | main.py:28-36 | `None` exactly when six divisions still leave more than three digits, that is, from 1000 * 1024^6 bytes on |
| FileSize.SmallSizesInBytes | main.py:25-36 | below 1000 bytes there is no division and the unit is `B` |
| FileSize.FormatSizeBytesExamples | main.py:31-36 | 0 is `0.0 B` and 999 is `999 B` |
| FileSize.FormatSizeKiloExamples | main.py:25-36 | 1000 is `0.0 K` (floor division), 1024 is `1.0 K`, 43008 is ` 42 K` |
| FileSize.FormatSizeMegaExample | main.py:25-36 | 1048576 is `1.0 M` |
| Timestamp.Parse | main.py:41 | whatever `strptime` accepts is a valid `datetime`: year 1..9999, month 1..12, a real day of that month, hour, minute and second in range |
| Timestamp.ParseIsoString | main.py:41 | a date and time written in the input layout parses back to itself when valid, and is refused when not |
| Timestamp.ParsedIsCanonical | main.py:41 | whatever `strptime` accepts is, with its `T` and `Z` in upper case, the printed form of the date and time it returns |
| Timestamp.CanonicalParses | main.py:41 | an input that, with `T` and `Z` in upper case, is the printed form of a valid date and time parses as that date and time |
| Timestamp.FormatTimestringSucceeds | main.py:39-42 | success exactly on the printed form of a valid date and time from 1900 on, with either case for `T` and `Z`; the result is then that date and time displayed |
| Timestamp.FormatTimestringFields | main.py:39-42 | on success the output is day, English month abbreviation, year and time, copied field for field from the input |
| Timestamp.FormatTimestringIso | main.py:39-42 | for any date and time written in the input layout, the result is its display form if it is valid and from 1900 on, and failure otherwise |
| Timestamp.FormatTimestringExample | main.py:39-42 | `2020-01-02T03:04:05.000Z` becomes `02-Jan-2020 03:04:05` |
| Timestamp.LeapYearExamples | main.py:41 | the Gregorian rule that `datetime` applies: 2020 and 2000 are leap years, 2019 and 1900 are not |
| Timestamp.FormatTimestringLeapDay | main.py:39-42 | 29 February of a leap year from 1900 on is accepted |
| Timestamp.FormatTimestringRejects | main.py:39-42 | refused: 29 February outside leap years, the 31st of a 30-day month, day or month 0, month 13 and up, hour 24 and up, minute or second 60 and up, years before 1900 |
| Entities.LastIndexOf | main.py:63 | `rfind`: -1, or an index holding the character |
| Entities.LastIndexOfIsLast | main.py:63 | no occurrence of the character follows the index `rfind` returns |
| Entities.SplitExtParts | main.py:63 | `splitext` loses no characters. A non-empty extension is one dot and then text with no dot and no slash |
| Entities.RemoveDots | main.py:63 | `replace(".", "")` leaves no dot |
| Entities.FileExtSpec | main.py:63 | `ext` has no dot. It is the text after the last dot of the final path component if that component has something other than dots before the dot, and empty otherwise |
| Entities.FileExtLastSuffix | main.py:63 | only the last suffix counts: `a.tar.gz` has `gz` |
| Entities.FileExtLeadingDots | main.py:63 | `.bashrc` and `..x` have no extension |
| Entities.FileExtTrailingDot | main.py:63 | `t.` has an empty extension |
| Entities.FileExtWithoutDot | main.py:63 | a name without a dot has no extension |
| Entities.FileExtDotInDirectory | main.py:63 | a dot in a directory name (`d.d/f`) is not an extension |
| Entities.EntityOfSpec | main.py:57-70 | an object becomes a `File` (`dir` false) with the formatted time and size, the signed link and `ext`; a prefix becomes a `Folder` (`dir` true) with url `./` + name; only an object whose timestamp is refused or whose size makes `round` overflow fails; when the key starts with the path, path + name is the key |
| Entities.MapOrFailSpec | main.py:99-110 | applying a failing step along a sequence succeeds exactly when every step does, and then gives one result per element, in order |
| Entities.EntitiesOfSpec | main.py:99-110 | the loop yields one entity per listing entry, in listing order, each the one its entry makes, and fails exactly when some entry does |
| Entities.BuildEntities | main.py:99-110 | the `for`/`append` loop computes exactly `EntitiesOf`, stopping at the first entry that raises |
| Index.Memcache.Get | main.py:92 | a page comes back exactly when one is stored under the key, and it is the stored one |
| Index.Memcache.Set | main.py:116-117 | the write reports the service's answer; on success the key maps to the page, on failure the cache is unchanged |
| Index.AsciiOnly | main.py:91 | `encode('ascii', errors='ignore')` keeps only ASCII characters and never lengthens the path |
| Index.AsciiOnlyConcat | main.py:91 | the ASCII filter works character by character: filtering a concatenation concatenates the filtered parts |
| Index.AsciiOnlyIdempotent | main.py:91 | filtering twice is filtering once |
| Index.PageIdIgnoresNonAscii | main.py:91 | inserting a non-ASCII character into a path does not change its page id, so such paths share one cache slot |
| Index.TruthyExamples | main.py:90-93 | `flush=1` and `flush=0` both force a rebuild; an empty or absent `flush` does not |
| Index.FlushUrl | main.py:114 | the flush link is `url + "?flush=1"` exactly when the request is not already a flush, and always extends the url |
| Index.DisplayPath | main.py:113 | the displayed path is `/` followed by the requested path |
| Index.Index | main.py:88-118 | the handler returns `Response` of the cache it found. The cache is unchanged on a hit or a failed rebuild; after a rebuild it holds the new page under the page id if memcache accepted it, and is unchanged otherwise |
| Index.HitIgnoresListing | main.py:92-118 | on a hit without flush the stored page is returned whatever the bucket lists |
| Index.FlushIgnoresCache | main.py:90-93 | a flush request gets the same answer whatever the cache holds |
| Index.ResponseSpec | main.py:93-115 | a request fails only on a miss or flush, and then exactly when some entry raises; a rebuilt page renders the listing's entities, one per entry in order, with the link `url + "?flush=1"`, or `url` on a flush |
| Index.StoredPageIsServed | main.py:88-118 | once a rebuilt page is stored, a later request without flush for any path with the same ASCII projection is served that page, whatever the bucket lists by then |

## Left out

- The Flask application, its routes, and `home`'s delegation to `index("")`
  (main.py:73-85, 121-122). This is framework plumbing. `home` is `Index` with
  the empty path.
- The environment settings, `Config` and the appstats middleware
  (main.py:14-18, 45-50, 74). They are configuration and instrumentation.
- The S3 connection, `bucket.list` and `generate_url` (main.py:94-98, 106).
  They are network I/O. The listing is an input sequence, and each object
  carries its signed link as an opaque string.
- A failed S3 call (unreachable service, bad credentials). It raises in the
  source; the model has no error for it, because the listing is given.
- Memcache expiry (`CACHE_TTL`) and eviction. Time is not modelled; a write is
  either accepted or not.
- The warning logged when a write fails (main.py:117). Logging is output only.
- The md5 digest. It is an arbitrary `digest` function; only the ASCII filter
  in front of it is modelled.
- `render_template` and the HTML it produces. This is templating; `render` is
  an arbitrary function of the display path, the flush link and the entities.
- Floating-point sizes. Under Python 2.7 `key.size` is an integer, and `round`
  matters only through its overflow, which is modelled.
- Timestamp.Parse: accepts only fields at their full width (four-digit year,
  two-digit month, day, hour, minute and second), as the storage listing
  writes them. `strptime` also takes one-digit fields and a blank-padded day.
  Those inputs are refused here instead of parsed.
- Timestamp.Display: the month names are the C locale's English
  abbreviations. Other locales are not modelled.
- Concurrent requests racing on one page id. Only one request at a time is
  modelled.
