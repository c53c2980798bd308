# VayuPress: verified models

Dafny models of the parts of VayuPress whose correctness is hardest to see from
reading them, with proofs about every input, every interleaving or every run:

* **Web-app icons** (`scripts/gen-pwa-icons.py`). The in-place PNG scanline
  unfilter, the chunk reader and writer, the integer resampler with its two
  branches, and the alpha compositor. Deflate and CRC-32 are parameters.
  Files: `ScanlineStream`, `ScanlineFilter`, `PngFile`, `Windows`, `Resample`,
  `Scale`, `Composite`.
* **Encoding repair** (`scripts/check-encoding.py`). A UTF-8 codec (sections 3
  and 4 of RFC 3629), Windows-1252 as editors use it, substitution over maximal
  runs, and the repair built from them. Files: `Utf8`, `Windows1252`,
  `RunSubstitution`, `EncodingRepair`.
* **Background fragment cache** (`cmd/vayupress/admin_dashcache.go`). The cache
  object, and a transition system of gets and background computes, panics
  included, in the source's order: a slot is released before the entry's flag is
  cleared. Files: `FragmentCache`, `CacheRuns`,
  `CacheScenarios`, `CacheServing`, `CacheSize`.
* **DNS page** (`cmd/vayupress/admin_os_dns.go`). Classification of a lookup, the
  worker pool as a transition system, and the rows of the page. Files: `DnsCheck`,
  `DnsPool`, `DnsViews`.
* **Media library** (`cmd/vayupress/admin_os_media.go`). The memo of where files
  are used, and every run of requests, scans and failures. File: `MediaScan`.
* **Analytics periods and cache keys** (`cmd/vayupress/admin_os_intel.go`,
  `admin_os_scoped_analytics.go`, `admin_dashcache.go`). Files: `Decimal`,
  `Calendar`, `AnalyticsPeriod`, `AnalyticsKeys`.
* **Cleaned paths** (`cmd/vayupress/admin_os_power.go`,
  `admin_os_scoped_bundle.go`). Files: `LexicalPath`, `Maintenance`, `SiteBundle`.

`dafny verify dfyconfig.toml` checks the whole project.

Several proofs are stated over a function passed as a parameter (a codec of
lines, a cutter of chunks, a mix of two channels, a rewrite of runs). The theorem
then holds for every such function with the stated laws, and the source's own
function is shown to have them.

## What the proofs found

* A PNG whose data ends inside its last scanline is accepted, with a short last
  row, when that line's filter runs no loop over it. Rows are whole exactly when
  the data is long enough (`ScanlineStream.DecodedWhole`,
  `ScanlineStream.ShortRowExample`).
* `scale` hands such a row on: its replicating branch assigns slices, so a short
  source row gives a short output row and no error (`Scale.ShortRowScales`). A
  whole picture comes out exactly when the source has the rows and bytes its
  dimensions promise (`Scale.ScaleExact`); a row that ends early comes to exactly
  what `Scale.ShortRowExact` says.
* `on_background` reads only the top left `size` by `size` pixels of its source.
  The call at `scripts/gen-pwa-icons.py:177` passes the undoubled mark with size
  180, so a 256 by 256 mark is cropped for the Apple icon rather than scaled as
  the docstring promises. Every mark of a given width is scaled whole exactly when
  that width is `size` (`Composite.ScaledWholeExactly`); a mark that is white on
  its top left 180 by 180 pixels and black elsewhere shows the failure at that
  call (`Composite.AppleIconIsCropped`).
* `evictOldest` uses the empty key for "none yet". Eviction removes an oldest idle
  entry exactly when the empty key is not the strictly oldest idle one
  (`FragmentCache.EvictionExact`), so always when no key is empty. A run reaches
  the other case (`CacheScenarios.EvictionCanBeMisled`). Every present caller builds a
  non-empty key (`site-analytics:`, `explore:`, `shield-engagement:`,
  `home:visitors`), so only a new caller could meet it.
* With one semaphore slot two entries can be flagged as computing at once
  (`CacheScenarios.FlagsCanExceedCapacity`), so the size bound counts flags, not slots.
  Flagged entries always number the held slots plus the workers that have released
  theirs and not yet cleared the flag (`CacheRuns.FlagsAreCounted`).
* A range that starts on 1 January of year 1 is taken and then treated as no
  range, because that day is Go's zero time. A page's links keep the period of a
  request exactly outside that family (`AnalyticsPeriod.LinksKeepPeriod`).
* Two names of a bundle can clean to one archive entry, such as `a` and `/a`
  (`SiteBundle.CollisionExample`); they do exactly when they come down to the same
  segments (`SiteBundle.SameEntryExactly`), and an archive's paths are distinct
  exactly when no two of its names do (`SiteBundle.ZipFromFiles`).
* A comment says a failed media scan is retried at "the next look after the TTL"
  (`cmd/vayupress/admin_os_media.go:240-241`). The code leaves the old start time
  in place, so the next look retries exactly when the old memo asks for a scan
  (`MediaScan.RetriesExactly`): after the TTL, and before it too while a file as
  new as the last scan is there, as in `MediaScan.RetriedBeforeTtl`. If that file
  has been deleted it does wait for the TTL. The model follows the code.

## Model

| member | source | states |
|---|---|---|
| ScanlineFilter.PaethIsNearest | scripts/gen-pwa-icons.py:81-83 | the predictor is the neighbour nearest a + b - c, ties going to left, then above, then corner |
| ScanlineFilter.UnfilterSub | scripts/gen-pwa-icons.py:66-68 | the in-place loop leaves in the line exactly the decoder's line for filter 1 |
| ScanlineFilter.UnfilterUp | scripts/gen-pwa-icons.py:69-71 | the same for filter 2 |
| ScanlineFilter.UnfilterAverage | scripts/gen-pwa-icons.py:72-75 | the same for filter 3, floor included |
| ScanlineFilter.UnfilterPaeth | scripts/gen-pwa-icons.py:76-84 | the same for filter 4 |
| ScanlineFilter.FilterUnfilter | scripts/gen-pwa-icons.py:65-88 | filtering what the decoder rebuilt gives back the filtered bytes, for every filter, line and line above |
| ScanlineFilter.UnfilterFilter | scripts/gen-pwa-icons.py:65-88 | undoing a filter gives back the original line, so each filter is a bijection |
| ScanlineFilter.FilterInjective | scripts/gen-pwa-icons.py:65-88 | no two lines filter to the same bytes |
| ScanlineFilter.PngLinesLawful | scripts/gen-pwa-icons.py:65-88 | the five filters form a codec of lines whose two directions undo each other |
| ScanlineFilter.DecodeScanlines | scripts/gen-pwa-icons.py:58-89 | the whole scanline loop computes the decoding function, its index errors and unknown filters included |
| ScanlineFilter.UnfilterByte | scripts/gen-pwa-icons.py:65-88 | a rebuilt byte is the filtered byte plus, modulo 256, nothing, the left byte, the byte above, the floor of their mean, or the nearest of left, above and corner, ties in that order |
| ScanlineFilter.DecodedByte | scripts/gen-pwa-icons.py:58-89 | the same of every byte of every row of a picture, against its place in the stream, with zeros left of and above the picture |
| ScanlineStream.DecodeAccepts | scripts/gen-pwa-icons.py:59-86 | a stream decodes exactly when every line has a known filter type and the last is whole, or short with no filter, or one pixel wide with Sub |
| ScanlineStream.DecodeFilterAll | scripts/gen-pwa-icons.py:58-89 | for every picture and every per-line choice of filters, decoding the filtered stream gives back the picture, whatever follows it |
| ScanlineStream.FilterAllDecode | scripts/gen-pwa-icons.py:58-89 | filtering the lines that came out, by the types that were read, gives back the very bytes |
| ScanlineStream.DecodedWhole | scripts/gen-pwa-icons.py:61-64 | decoded rows number the height, and are all whole exactly when the data is long enough |
| ScanlineStream.ShortRowExample | scripts/gen-pwa-icons.py:63 | a stream that stops inside its last line is accepted with a short row |
| PngFile.ScanChunks | scripts/gen-pwa-icons.py:40-55 | the chunk loop ends and computes the scan of the file, clipped slices and struct errors included |
| PngFile.ReadPng | scripts/gen-pwa-icons.py:35-89 | reading equals the reading function, with its failures in the source's order |
| PngFile.ScanYields | scripts/gen-pwa-icons.py:43-55 | scanning laid-out chunks means exactly what the list of chunks means |
| PngFile.LayoutIs | scripts/gen-pwa-icons.py:44-46 | a chunk is its length, most significant byte first, its kind in ASCII, its payload and its CRC |
| PngFile.HeaderExact | scripts/gen-pwa-icons.py:47-50 | the header check accepts exactly thirteen bytes with depth 8, colour 6 and interlace 0, and reads the size as its first two big-endian words |
| PngFile.ReadDependsOnIdat | scripts/gen-pwa-icons.py:43-57 | the split of IDAT over chunks, unknown chunks, CRC bytes and anything after IEND make no difference |
| PngFile.ReadFiltered | scripts/gen-pwa-icons.py:35-89 | any picture, filtered line by line in any way and split in any way, reads back as itself |
| PngFile.WritePng | scripts/gen-pwa-icons.py:92-112 | what is written is the signature and the three laid-out chunks, or the error of a number that does not fit |
| PngFile.WrittenFile | scripts/gen-pwa-icons.py:92-112 | the written file byte for byte: signature, lengths with the most significant byte first, kinds, header fields, data, checksums |
| PngFile.ReadWrite | scripts/gen-pwa-icons.py:35-112 | reading what was written gives the same width, height and rows |
| PngFile.PngReadWrite | scripts/gen-pwa-icons.py:35-112 | the same with the source's five filters as the codec of lines |
| Windows.WindowInRange | scripts/gen-pwa-icons.py:130-133 | every averaging window of every positive size is non-empty and inside the source |
| Windows.WindowIs | scripts/gen-pwa-icons.py:130-133 | a window runs from the floor of i n / size to the floor for the next output, or one position on |
| Windows.WindowsMeet | scripts/gen-pwa-icons.py:130-133 | when shrinking, each window ends where the next begins |
| Windows.WindowIsOne | scripts/gen-pwa-icons.py:130-133 | when enlarging, each window is a single source position |
| Windows.WindowsPartition | scripts/gen-pwa-icons.py:130-133 | when shrinking, every source position lies in one and only one window |
| Resample.ScaledBetween | scripts/gen-pwa-icons.py:129-144 | an averaged output lies between any bounds of the pixels its window holds |
| Resample.WindowTotalsConserve | scripts/gen-pwa-icons.py:129-144 | when shrinking, the window totals of all outputs add up to the whole channel |
| Resample.ReplicationIsAverage | scripts/gen-pwa-icons.py:119-126 | with integral ratios the replicated pixel is what averaging would give |
| Scale.ScalePicture | scripts/gen-pwa-icons.py:115-146 | the loops compute the outcome on any rows and sizes: division by zero, reads past the rows, and the line that slice assignment shrinks included |
| Scale.ScaleIsAverage | scripts/gen-pwa-icons.py:115-146 | over a source that has its bytes, whichever branch runs, the picture is the area average |
| Scale.ScaledIsMean | scripts/gen-pwa-icons.py:115-146 | every output byte is the floor of its window's total over its window's area, whichever branch runs |
| Scale.ScaleExact | scripts/gen-pwa-icons.py:115-146 | a size by size picture comes out exactly when the source has the rows and bytes its dimensions promise |
| Scale.ReplicatedWhole | scripts/gen-pwa-icons.py:121-126 | a replicated row has 4 bytes a pixel exactly when its source row is long enough |
| Scale.ShortRowScales | scripts/gen-pwa-icons.py:126 | a one-byte row comes out as a one-byte row, without an error |
| Scale.ShortRowExact | scripts/gen-pwa-icons.py:121-126 | a source row that ends after some whole pixels fills their share of the output row, and of the missing output pixels half remain, rounded down, all zero |
| Scale.EnlargeThenShrink | scripts/gen-pwa-icons.py:115-146 | enlarging a square picture k times and scaling back to its size changes nothing |
| Composite.BlendBetween | scripts/gen-pwa-icons.py:162 | a blended channel lies between the mark's and the canvas's |
| Composite.BlendIsWeighted | scripts/gen-pwa-icons.py:162 | a blended channel is the floor of the mean of mark and canvas weighted by alpha out of 255 |
| Composite.OnBackground | scripts/gen-pwa-icons.py:149-163 | the canvas loops compute the outcome on any rows and inset: the scaled mark blended onto the canvas, or the error |
| Composite.OutcomeIsComposited | scripts/gen-pwa-icons.py:149-163 | a source with its size by size pixels gives the composite of the area average |
| Composite.CompositedPixel | scripts/gen-pwa-icons.py:149-163 | every pixel is opaque, 0A 0F 1A outside the inset square, and inside it the floored alpha-weighted mean of mark and background |
| Composite.CompositedCrops | scripts/gen-pwa-icons.py:149-163 | only the top left size by size pixels of the source matter |
| Composite.ScaledWholeExactly | scripts/gen-pwa-icons.py:149-163 | every w by w mark is scaled whole into the inset square exactly when w is the canvas size |
| Composite.AppleIconIsCropped | scripts/gen-pwa-icons.py:177 | a 256 by 256 mark at size 180 and inset 18 never raises, and some such mark is not scaled whole |
| Utf8.DecodeEncode | scripts/check-encoding.py:45 | decoding an encoded text gives the text |
| Utf8.EncodeDecode | scripts/check-encoding.py:45 | bytes that decode are the encoding of what they decode to, so overlong forms and surrogates are refused |
| Utf8.EncodeCharBits | scripts/check-encoding.py:45 | the bytes of a character: their number, their marks, and how their bits add up to it |
| Windows1252.ByteOfCharOf | scripts/check-encoding.py:31-36 | the 256 bytes and their characters match one to one |
| Windows1252.CharOfHalves | scripts/check-encoding.py:38 | upper-half characters are exactly those of bytes from 0x80 up |
| Windows1252.CharOfTable | scripts/check-encoding.py:31-36 | the characters of bytes 0x80 to 0x9F as the code page lists them, undefined bytes and all others as themselves |
| Windows1252.BuildTable | scripts/check-encoding.py:31-36 | the table's loop builds exactly the inverse of reading a byte as a character |
| RunSubstitution.SubUnchanged | scripts/check-encoding.py:39-62 | a pass leaves a text alone exactly when it leaves each maximal run of two or more alone |
| RunSubstitution.SubShortens | scripts/check-encoding.py:62 | a pass whose rewrites shorten what they change shortens any text it changes |
| RunSubstitution.SubKeeps | scripts/check-encoding.py:62 | what lies outside every run comes through in order and unchanged |
| EncodingRepair.ReverseExact | scripts/check-encoding.py:42-47 | a run is changed exactly when it misreads some text, then to that text, free of ASCII and at most half as long |
| EncodingRepair.MisreadInjective | scripts/check-encoding.py:42-47 | no run is the misreading of two texts |
| EncodingRepair.RepairMisread | scripts/check-encoding.py:39-62 | one pass over any misread text gives back exactly the text |
| EncodingRepair.FixedTimesMisreadTimes | scripts/check-encoding.py:62 | k runs of the script undo k rounds of damage, byte order mark or not |
| EncodingRepair.AcceptedMisread | scripts/check-encoding.py:62-64 | a misread text is accepted exactly when the text was plain ASCII |
| EncodingRepair.OnePassIsNotEnough | scripts/check-encoding.py:62 | one pass over twice-damaged text leaves something to repair |
| EncodingRepair.FixedKeeps | scripts/check-encoding.py:62-64 | a run of the script keeps the ASCII subsequence and strictly shortens whatever it changes |
| EncodingRepair.Settled | scripts/check-encoding.py:62-64 | repeated runs end at an accepted text with the same ASCII |
| EncodingRepair.AcceptedExact | scripts/check-encoding.py:62-64 | accepted texts are those with no leading byte order mark and no maximal run that misreads any text |
| EncodingRepair.Sweep | scripts/check-encoding.py:50-74 | over all tracked files, exactly the offenders are listed, once each and in order; without --check they and nothing else are rewritten, under --check no file changes and the exit is 1 exactly when something is listed |
| EncodingRepair.OffendsExact | scripts/check-encoding.py:57-68 | a decodable file offends exactly when it begins with EF BB BF or a pass changes its text, and is rewritten as the repair of what is left once leading marks are gone |
| EncodingRepair.MarkOffends | scripts/check-encoding.py:62-68 | a byte order mark in front of any decodable file is refused and goes |
| EncodingRepair.RepairedText | scripts/check-encoding.py:62-68 | a rewritten file decodes to the fixed text, which is shorter |
| FragmentCache.AdminFragmentCache.constructor | cmd/vayupress/admin_dashcache.go:57-62 | an empty cache with at least one compute slot |
| FragmentCache.AdminFragmentCache.EvictOldest | cmd/vayupress/admin_dashcache.go:125-139 | the victim is the one the walk of the map ends with, in the order it was walked |
| FragmentCache.WalkMayEvict | cmd/vayupress/admin_dashcache.go:125-139 | whatever that order, an oldest idle entry goes if one has a non-empty key |
| FragmentCache.AdminFragmentCache.Get | cmd/vayupress/admin_dashcache.go:81-121 | the whole new state, what is served, and the compute that is scheduled if any |
| FragmentCache.AdminFragmentCache.Keys | cmd/vayupress/admin_dashcache.go:148-158 | every key with the prefix, each once |
| FragmentCache.OldestExists | cmd/vayupress/admin_dashcache.go:125-139 | an oldest entry can be picked exactly when something is idle and the empty key is not strictly oldest |
| FragmentCache.EvictionExact | cmd/vayupress/admin_dashcache.go:125-139 | eviction removes an oldest idle entry exactly outside the empty-key configuration |
| CacheScenarios.EvictionCanBeMisled | cmd/vayupress/admin_dashcache.go:84-139 | a run reaches a full map of idle entries where one walk order removes the newer entry and the other none |
| CacheRuns.InvStep | cmd/vayupress/admin_dashcache.go:81-121 | every step of a get or a compute, panics included, keeps the cache's invariant |
| CacheRuns.CacheIsSafe | cmd/vayupress/admin_dashcache.go:81-121 | in every run: held slots are the unreleased workers and within capacity, no worker ever waits, one live compute per key, on the flagged entry still in the map |
| CacheScenarios.FlagsCanExceedCapacity | cmd/vayupress/admin_dashcache.go:98-102 | with one slot a run reaches two entries flagged as computing |
| CacheRuns.FlagsAreCounted | cmd/vayupress/admin_dashcache.go:98-102 | in every run flagged entries number the held slots plus the workers past their release |
| CacheServing.GetStartsExactly | cmd/vayupress/admin_dashcache.go:91-117 | a get starts a compute exactly when none is live for the key, a slot is free, and the fragment is missing or ttl old |
| CacheServing.ServedWasReturned | cmd/vayupress/admin_dashcache.go:91-120 | a get serves nothing, or a fragment that a compute for that key returned |
| CacheServing.OnlyStoreChanges | cmd/vayupress/admin_dashcache.go:98-114 | an empty or panicking compute leaves the last fragment and its time in place |
| CacheServing.StoreTakesEffect | cmd/vayupress/admin_dashcache.go:108-113 | after a store the entry of the key, still in the map, holds exactly what the compute returned, at that time |
| CacheServing.LatestStoreIsServed | cmd/vayupress/admin_dashcache.go:91-120 | over every run, from a store until the next into that entry, gets of the key serve exactly it |
| CacheServing.ReturnedIsServed | cmd/vayupress/admin_dashcache.go:103-120 | what a compute returns can always be stored and is then what gets of the key serve, whatever other gets and computes do |
| CacheServing.NoEarlyRecompute | cmd/vayupress/admin_dashcache.go:92-111 | after a store at time t no get starts a compute on that kept entry before t plus its ttl, in any run |
| CacheSize.LookedSize | cmd/vayupress/admin_dashcache.go:84-90 | a full map grows only when every entry is computing |
| CacheSize.SizeStaysBounded | cmd/vayupress/admin_dashcache.go:84-90 | in every run the map holds at most the larger of the limit and one more than the most entries ever computing at once, a number the run attains |
| DnsCheck.ApexSite | cmd/vayupress/admin_os_dns.go:285-294 | the apex counts as proxied exactly when it resolves, to nothing held here, on a machine with addresses |
| DnsCheck.ClassifyRecord | cmd/vayupress/admin_os_dns.go:304-339 | the switch and its two loops compute the classification |
| DnsCheck.ClassifyExact | cmd/vayupress/admin_os_dns.go:304-339 | each of the five verdicts exactly, by the addresses found and those this machine and the apex have |
| DnsPool.FeedOrder | cmd/vayupress/admin_os_dns.go:343-347 | the feeder names every slot once |
| DnsPool.InvStep | cmd/vayupress/admin_os_dns.go:296-349 | every step of feeder and workers keeps the pool's invariant |
| DnsPool.PoolIsSequential | cmd/vayupress/admin_os_dns.go:296-350 | under every schedule each slot is written once and the checks equal the sequential classification of the same answers |
| DnsPool.UnfinishedIsUnknown | cmd/vayupress/admin_os_dns.go:262-339 | when the pool is done, an unfinished lookup shows as unknown and never as not pointed |
| DnsPool.PoolProgresses | cmd/vayupress/admin_os_dns.go:296-349 | no deadlock before every worker has stopped |
| DnsPool.SchedulesEnd | cmd/vayupress/admin_os_dns.go:296-349 | every schedule is finite, at most four steps a slot and one a worker |
| DnsViews.Resolves | cmd/vayupress/admin_os_dns.go:106-114 | the first check of the view's own host decides |
| DnsViews.NeedsCertificate | cmd/vayupress/admin_os_dns.go:137-145 | approved, not primary, pending or failed, and resolving |
| DnsViews.NeedsAttention | cmd/vayupress/admin_os_dns.go:90-103 | exactly the warned views |
| DnsViews.WarnedExact | cmd/vayupress/admin_os_dns.go:90-145 | a view is warned exactly when on hold, or a record is proxied or required and not pointed, or an approved secondary pending or failed resolves at its own first check |
| DnsViews.RowState | cmd/vayupress/admin_os_dns.go:436-459 | a row warns exactly when it needs attention, and names the first thing to fix |
| DnsViews.Listing | cmd/vayupress/admin_os_dns.go:519-531 | the count is of the warned rows and the filter keeps precisely them, in order |
| DnsViews.HostedViews | cmd/vayupress/admin_os_dns.go:355-398 | distinct hosts: the primary and every active registered one, each from its first entry, with its records unchecked; the primary carries the TLS state of the last primary-flagged entry that repeats a listed host |
| MediaScan.Newest | cmd/vayupress/admin_os_media.go:339-345 | the newest time of any file not dated in the future |
| MediaScan.FillVerdicts | cmd/vayupress/admin_os_media.go:347-361 | every file gets its verdict against the scan it was given |
| MediaScan.MediaUsesMemo.Read | cmd/vayupress/admin_os_media.go:228-238 | the last scan, and a launch exactly when one is wanted and none is under way |
| MediaScan.MediaUsesMemo.Finish | cmd/vayupress/admin_os_media.go:247-254 | a complete scan replaces result and start time together, a failed one neither |
| MediaScan.RunInv | cmd/vayupress/admin_os_media.go:228-255 | in every run scans never overlap, the memo is the last completed scan, and its start time never goes back |
| MediaScan.NotUsedIsSubstantiated | cmd/vayupress/admin_os_media.go:355-360 | in every run "not used" rests on a completed scan that began in a later second than the file's and found no use |
| MediaScan.VerdictExact | cmd/vayupress/admin_os_media.go:347-361 | in every run a file has a verdict exactly when the last completed scan began in a later second, and it is the places that scan found |
| MediaScan.WantsExactly | cmd/vayupress/admin_os_media.go:231-236 | a scan is wanted before the first, five minutes after the last began, and while the newest file has no verdict |
| MediaScan.RetriesExactly | cmd/vayupress/admin_os_media.go:228-255 | after a failed scan a request starts another exactly when the memo it left alone still asks for one |
| MediaScan.WantedUntilComplete | cmd/vayupress/admin_os_media.go:228-255 | once a scan is wanted, until one completes every later request with no smaller newest time starts one unless one is under way |
| MediaScan.RetriedBeforeTtl | cmd/vayupress/admin_os_media.go:228-255 | a run ends in a failed scan that the next look retries before the TTL, unless the newer file is gone |
| Decimal.AtoiItoa | cmd/vayupress/admin_os_intel.go:571-577 | reading back a printed integer gives the integer |
| Decimal.ItoaIs | cmd/vayupress/admin_os_intel.go:571-577 | printing is decimal, digit by digit, with a sign in front |
| Decimal.AtoiIs | cmd/vayupress/admin_os_intel.go:463 | reading takes a sign and leading zeros and nothing past 64 bits |
| Calendar.NextDayNumber | cmd/vayupress/admin_os_intel.go:601-604 | the day number behind every distance in days counts days: the next calendar day is the next number |
| Calendar.MonthsAre | cmd/vayupress/admin_os_intel.go:601-604 | the lengths of the months |
| Calendar.YearsAre | cmd/vayupress/admin_os_intel.go:601-604 | the days before a year, leap years counted in closed form |
| Calendar.ParseFormat | cmd/vayupress/admin_os_intel.go:566-599 | reading back a printed day gives the day |
| Calendar.FormatParse | cmd/vayupress/admin_os_intel.go:599-600 | only a printed day is read as a day |
| Calendar.FormatIs | cmd/vayupress/admin_os_intel.go:566-599 | a day's text is year, month and day in four, two and two digits |
| AnalyticsPeriod.Values.SetPeriod | cmd/vayupress/admin_os_intel.go:558-573 | the range, or the days unless they are the default, are written and every other parameter is left alone |
| AnalyticsPeriod.SpanRoundTrip | cmd/vayupress/admin_os_intel.go:558-605 | reading the link an offered period writes gives back the period, the omitted default and recomputed lengths included |
| AnalyticsPeriod.LinksKeepPeriod | cmd/vayupress/admin_os_intel.go:514-605 | a page's links keep the period of any request exactly unless it is a range from the zero day |
| AnalyticsPeriod.SpanIsOffered | cmd/vayupress/admin_os_intel.go:438-605 | whatever a request asks for, the period counted is one the page offers, exactly outside that family |
| AnalyticsPeriod.DaysAsked | cmd/vayupress/admin_os_intel.go:462-470 | without a range, the days asked for count if offered, otherwise thirty |
| AnalyticsPeriod.ZeroDayExample | cmd/vayupress/admin_os_intel.go:514 | such a request exists |
| AnalyticsKeys.BuildKey | cmd/vayupress/admin_os_intel.go:576-588 | the loop builds the period's text, then each filter and the page after a bar |
| AnalyticsKeys.PlainKeyIs | cmd/vayupress/admin_os_scoped_analytics.go:196-200 | the key of a plain window, spelt out |
| AnalyticsKeys.NarrowedKeyIs | cmd/vayupress/admin_os_intel.go:576-588 | the key of a range narrowed by a filter and a page, spelt out |
| AnalyticsKeys.PrefixIsOwn | cmd/vayupress/admin_os_scoped_analytics.go:200 | a site's prefix starts its own keys and no other site's |
| AnalyticsKeys.RefreshIsExact | cmd/vayupress/admin_dashcache.go:164-176 | a cached key is rebuilt exactly when it is that site's and a plain day window, with the view and days that made it |
| AnalyticsKeys.RefreshedByOne | cmd/vayupress/admin_dashcache.go:164-176 | whatever a key is, at most one site rebuilds it |
| LexicalPath.KeptPlain | cmd/vayupress/admin_os_power.go:77 | a cleaned rooted path has no empty, dot or dot-dot segment |
| LexicalPath.KeptNext | cmd/vayupress/admin_os_power.go:77 | one more segment: a plain one is added, dot and empty change nothing, dot-dot takes the last back |
| LexicalPath.CleanIdempotent | cmd/vayupress/admin_os_power.go:77 | cleaning is idempotent on rooted paths |
| LexicalPath.SegmentPrefix | cmd/vayupress/admin_os_power.go:71 | one path starts another at a whole segment exactly when its segments start the other's |
| Maintenance.MaintenancePathExempt | cmd/vayupress/admin_os_power.go:65-78 | exempt as it arrived and as cleaned |
| Maintenance.ExemptBySegments | cmd/vayupress/admin_os_power.go:65-78 | a cleaned path is exempt exactly when its first segments are one of the nine listed prefixes or it is the icon |
| Maintenance.DetourIsRead | cmd/vayupress/admin_os_power.go:61-77 | a detour out of an exempt segment is judged by where it leads |
| Maintenance.WholeSegmentCounts | cmd/vayupress/admin_os_power.go:58-59 | only a whole segment counts, not a longer one that starts with it |
| Maintenance.ReachableIsStable | cmd/vayupress/admin_os_power.go:65-78 | an exempt path's cleaned form is itself exempt and lies under whole exempt segments |
| SiteBundle.SortedIsUnique | cmd/vayupress/admin_os_scoped_bundle.go:77-84 | a set of names has one sorted listing, so the order is fixed by the file map alone |
| SiteBundle.BeforeExact | cmd/vayupress/admin_os_scoped_bundle.go:84 | the order is by the first differing character, a prefix coming first |
| SiteBundle.SortedNames | cmd/vayupress/admin_os_scoped_bundle.go:80-84 | the gathered names, sorted, whatever order the map gives them |
| SiteBundle.EntryPathShape | cmd/vayupress/admin_os_scoped_bundle.go:89-92 | an entry's path is its plain segments, and the three refusals come to one: a name that is the root |
| SiteBundle.ZipFromFiles | cmd/vayupress/admin_os_scoped_bundle.go:72-105 | no files, or the first root-bound name in sorted order, is refused; else one entry per file in sorted order, each a non-empty relative path of plain segments, all distinct exactly when no two names have the same segments |
| SiteBundle.SameEntryExactly | cmd/vayupress/admin_os_scoped_bundle.go:89 | two names write one entry exactly when they come down to the same segments |
| SiteBundle.LeadingSlashCollides | cmd/vayupress/admin_os_scoped_bundle.go:89 | a leading slash makes no difference |
| SiteBundle.CollisionExample | cmd/vayupress/admin_os_scoped_bundle.go:89 | "a" and "/a" are both taken and write one entry |

## Left out

- HTML, SVG and script rendering, HTTP handlers, JSON, CSRF and audit calls: string building and plumbing with no hard invariant.
- SQL queries, the article service, the write queue and real DNS resolution: their answers are parameters or nondeterministic steps.
- Deflate and CRC-32 values: parameters, with lossless decompression assumed where a round trip needs it; the reader ignores CRCs.
- Fragment cache entries are handles into an arena rather than heap objects; the sharing between map and goroutine is kept, garbage collection is not modelled.
- Clocks are non-decreasing integers; wall-clock steps backwards are not modelled.
- `context` timeouts of computes, scans and lookups: a timed-out compute returns the empty fragment, a timed-out scan fails, a timed-out lookup is not ok.
- Scale.ScalePicture: negative widths and heights are outside the model; a PNG header cannot hold one.
- Composite.OnBackground: for a negative inset the model gives the error the script always ends in (its mark has more rows than the canvas), without the rows it paints before that.
- DnsViews.HostedViews: host folding and the record list of a domain are parameters.
- DnsViews.Listing: the search box is a parameter predicate over views.
- MediaScan.FillVerdicts: alt text and titles are left out, as they do not affect the verdict.
- The encoding of filters in a key or a link: kept as opaque text in keys, left out of the period round trip.
- The zip container's bytes: an archive is its list of entries.
- `seoStatsSnapshot`, chart geometry, labels and counters: easy members next to the ones above.
