# Proofs about OSV-SCALIBR

This project models the parts of OSV-SCALIBR whose correctness is hard to see from reading one
function, and proves what they are for.

- **Secret detection** (`Detection`, `Engine`, `Uint32`, `FakeDetector`). The engine reads a stream
  through one reused buffer. For detectors whose findings at a position depend only on the bytes that
  follow it, and on as many as the longest secret has, the chunked search reports the same multiset of
  secrets as one search over the whole stream. `FakeDetector` meets this hypothesis if and only if its
  word has no border.
- **Request cache** (`RequestCache`, `RequestCacheRuns`, `SharedCache`, `LoadedCache`). Any number of
  concurrent `Get` calls, as atomic steps of the lines of the code; `wg.Done`, the store into the cache
  and the removal of the call are separate steps. The results hold for every run of every length.
- **Version comparators** (`RedHat`, `Debian`, `Maven`, `MavenOrder`, `MavenTransitivity`,
  `MavenQualifiers`, `PyPI`, `Packagist`, `RubyGems`, `Semver`, with `Orders`, `Text` and `Components`
  below them). Each loop is proved to compute the lexicographic comparison of a tokenisation that is
  defined independently of the loop, and that comparison to be a total preorder, or to be one exactly
  under a stated condition. The Maven comparison is proved never to fail, to be 0 only for equal
  versions, to flip when its arguments are swapped, and to be transitive exactly under a condition on
  the tokens that may occur. How each kind of token is read and ordered is stated on its own.
- **Symbolic links below a root** (`RootFs`). The worklist loop is proved equal to a recursive
  definition of pathname resolution (section 4.13 of the Base Definitions of POSIX.1-2017, except that
  `..` at the root is refused), on every static file system, cyclic links included.
- **Patch selection and ranking** (`Patches`, `PatchOrder`), the ranking with the exact condition under
  which it is an order.
- **Base images** (`BaseImage`) and **Maven module discovery** (`ModuleDiscovery`).

Code that updates fields, buffers or lists is modelled by classes and methods with loops; each of them
is proved against a function of its inputs, and the lemmas say what that function means.

`dafny verify dfyconfig.toml` checks the whole project.

Where the code does not do what its documentation promises, or what an order needs, the model follows
the code:

- A `FakeDetector` with a bordered word misses overlapping occurrences (`FakeDetector.BorderIsNotLocal`).
- `Get` is documented to call fn only once for a key; it calls it again as often as it has failed
  (`RequestCacheRuns.CalledAnyNumberOfTimes`), and exactly then (`RequestCacheRuns.CallsFnIff`,
  `RequestCacheRuns.AgainOnlyAfterFailure`).
- With `WithReadLen(0)`, `Detect` never leaves its loop once the stream fills the retained bytes
  (`Detection.LoopEndsIff`), unless it is cancelled.
- The Maven comparison is not transitive: 1 < 1-sp < 1.0.alpha < 1 (`MavenOrder.NotTransitive`). It is
  on versions over a set of tokens exactly if the set is layered (`MavenTransitivity.TransitiveIff`,
  `MavenQualifiers.StringsTransitiveIff`), for example on all versions with nothing but numbers behind
  dots (`MavenTransitivity.HyphenatedAreOrdered`).
- The Packagist comparison is not transitive once a number beyond 64 bits, or a word that starts with
  `#`, is admitted (`Packagist.OrderedIffOrdinary`).
- The ranking of patches is not transitive if targets are tangled (a string that does not parse as a
  version stands, as text, between two versions that are ordered the other way round), or if patches
  without updates fix as many vulnerabilities as they introduce or are not separated by how many they
  fix (`PatchOrder.RankingIsPreorderIff`, `PatchOrder.EmptyPatchesIff`).
- Components beyond the third that are moved behind a build string cannot be told from it
  (`Semver.DeterminedIffNoBuild`).
- A pre-release identifier that is a hyphen followed by digits is read as a negative number, against
  item 11 of Semantic Versioning 2.0.0 (`Semver.FollowsItem11Iff`).
- In a Debian version, NUL weighs as much as the letter z (`Debian.WeightsFollowPolicy`,
  `Debian.FollowsPolicyIff`).

## Model

| member | source | states |
|---|---|---|
| Engine.DetectionEngine.Detect | veles/detect.go:149-184 | For local detectors, a completed run over any stream reports the same multiset of secrets as one search over the whole stream; a run cancelled at the head of the loop reports exactly those that start at least the detector's secret length before the end of what was read; how often the loop is entered, what happens on a failing reader and that the run ends are stated too; with a read length of 0 and a stream that fills the retained bytes, only cancellation ends it |
| Engine.DetectionEngine.DetectRest | veles/detect.go:165-183 | The loop over the reused buffer: with `heads` entries it has reported the first window, the `heads - 1` full windows behind it and, at the end, the rest, each cut out of the stream at the right place |
| Engine.DetectionEngine.ReadOn | veles/detect.go:172-181 | One round of the loop: a full refill is searched as a middle window and leaves the next bytes to keep at the end of the buffer; at the end of the stream the rest is searched |
| Engine.DetectionEngine.Refill | veles/detect.go:171-173 | After moving the kept bytes to the front and reading behind them, the buffer holds one contiguous piece of the stream that starts `retainLen` bytes before the unread part |
| Engine.Reader.ReadFull | veles/detect.go:157-158 | Reads as many bytes as fit or are left into the given part of the buffer and leaves what is in front of it alone |
| Engine.DetectionEngine.DetectAll | veles/detect.go:188-198 | Reports everything each detector finds, in the order of the detectors |
| Engine.DetectionEngine.DetectLeft | veles/detect.go:200-218 | Reports, for each detector, what starts at least its secret length before the right edge |
| Engine.DetectionEngine.DetectRight | veles/detect.go:220-233 | Reports, for each detector, everything in the part that reaches back its secret length into the kept bytes |
| Engine.DetectionEngine.DetectMiddle | veles/detect.go:235-250 | Reports, for each detector, what starts in its own window: from its secret length before the kept bytes end to its secret length before the right edge |
| Detection.Slice | veles/detect.go:138-148 | A slice of the stream shows a local detector the same secrets as the stream itself at every start whose window lies in the slice |
| Detection.MiddleReport | veles/detect.go:235-250 | What starts early enough before one read and what the next window adds is together what starts early enough before the next read: nothing is missed or reported twice at an edge |
| Detection.RightReport | veles/detect.go:220-233 | The last window completes the report: together with what came before it is the search over the whole stream |
| Detection.TakenIsEarly | veles/detect.go:163-183 | All windows read so far amount to what starts early enough in the part read so far, for every secret and every number of reads |
| Detection.TakenAndRightIsWhole | veles/detect.go:149-184 | All windows together amount to one search over the whole stream |
| Detection.LoopEndsIff | veles/detect.go:165-183 | A number of entries after which reading stops exists if and only if the read length is positive or the stream is shorter than the retained bytes; Engine.DetectionEngine.Detect ties every run that is not cancelled to such a number |
| Engine.NewDetectionEngine | veles/detect.go:83-136 | The read length is that of the last WithReadLen, and without one the greater of 64 KiB and the rounded-up longest secret; the retained length is that of the last WithRetainLen, and without one the greater of 1 KiB and that; an engine is made exactly if there are detectors and the retained length holds every secret |
| Engine.DefaultsSuffice | veles/detect.go:123-134 | Without options, construction succeeds exactly when no secret is longer than 2^31 bytes |
| Uint32.NextPowerOf2 | veles/detect.go:252-261 | The result is the least power of two not below the argument for 1 to 2^31, and 0 for 0 and above 2^31, on 32-bit words |
| Uint32.Smear | veles/detect.go:254-258 | Or-ing a word with itself shifted by c doubles a run of c ones at the top until all significant bits are ones |
| FakeDetector.Detect | veles/velestest/fakedetector.go:44-56 | The loop reports the occurrences found by searching on behind each one |
| FakeDetector.ScanFindsAll | veles/velestest/fakedetector.go:44-56 | A word without border is reported once at each of its occurrences and nowhere else |
| FakeDetector.LocalIffBorderless | veles/velestest/fakedetector.go:36-56 | The hypothesis of the streaming theorem holds of a fake detector if and only if no proper prefix of its word is also a suffix |
| FakeDetector.BorderIsNotLocal | veles/velestest/fakedetector.go:44-56 | For every bordered word there is a text in which an occurrence is missed although the same bytes on their own are reported |
| SharedCache.Cache.Fire | clients/datasource/cache.go:67-122 | After any event - a new Get, one step of a goroutine, the return of fn, SetMap - the object is in the state that the whole history of events leads to, each of which was possible when it happened |
| SharedCache.Cache.Guarantees | clients/datasource/cache.go:67-107 | On the object, at any time: no two goroutines execute fn for one key; successful Gets of a key agree; once one has succeeded, no goroutine executes fn for that key or is about to |
| SharedCache.Cache.GetMap | clients/datasource/cache.go:110-115 | Right after SetMap the copy is what was loaded; without SetMap it holds exactly the keys for which fn has succeeded and been announced, with the value every successful Get of the key has returned |
| LoadedCache.LoadedStays | clients/datasource/cache.go:118-122 | In every run, SetMap replaces all that is cached; a key then keeps what was loaded for it, or nothing, until the next SetMap or the next store for that key |
| LoadedCache.LoadedIsReturned | clients/datasource/cache.go:67-122 | In every run, a Get of a loaded key that had not taken the lock before calls no fn, waits for nobody, and returns the loaded value if it returns |
| LoadedCache.NotLoadedIsFetched | clients/datasource/cache.go:69-89 | A Get of a key that was not loaded, with no pending call, runs fn, whatever was cached before |
| LoadedCache.RunsFnIffAbsent | clients/datasource/cache.go:69-89 | In every run, a Get that meets neither a pending call nor a holder of the lock runs fn if and only if its key is not cached |
| RequestCache.FrameStep | clients/datasource/cache.go:67-107 | A step leaves alone the other goroutines, finished records, and the registrations of others |
| RequestCache.InvStep | clients/datasource/cache.go:67-107 | Every step keeps the invariant: lock holder, records and their creators, registered calls with live creators, values written before they are announced |
| RequestCacheRuns.OneFnAtATime | clients/datasource/cache.go:75-89 | In every run, at most one goroutine executes fn for a key at a time |
| RequestCacheRuns.WaiterGetsOutcome | clients/datasource/cache.go:75-81 | In every run, a waiter returns written values, namely what the creator of the call got from fn and returns itself |
| RequestCacheRuns.OutcomeIsFromFn | clients/datasource/cache.go:89-90 | In every run, what a call has recorded, value and error, is what fn returned to its creator at some step |
| RequestCacheRuns.OutcomeIsFinal | clients/datasource/cache.go:89-90 | What fn returned is never overwritten by any later step |
| RequestCacheRuns.SomeoneCanMove | clients/datasource/cache.go:67-107 | In every reachable state with an unfinished Get, some unfinished goroutine can take a step: no deadlock |
| RequestCacheRuns.StepsAreBounded | clients/datasource/cache.go:67-107 | In every run the number of steps is at most ten for each Get: no livelock |
| RequestCacheRuns.RunValues | clients/datasource/cache.go:92-104 | Every run without SetMap keeps: cached values come from the one successful call for their key, and an announced success is cached or about to be |
| RequestCacheRuns.PendingMeansNoSuccess | clients/datasource/cache.go:84-90 | While a call for a key is pending, no call for that key has succeeded |
| RequestCacheRuns.OneCallSucceeds | clients/datasource/cache.go:67-107 | At most one call of fn ever succeeds per key |
| RequestCacheRuns.SuccessesAgree | clients/datasource/cache.go:67-107 | All Gets of a key that return successfully return the same value |
| RequestCacheRuns.AgainOnlyAfterFailure | clients/datasource/cache.go:65-107 | In every run, fn is called again for a key only after every earlier call of it has returned an error |
| RequestCacheRuns.CallsFnIff | clients/datasource/cache.go:69-89 | In every run, a Get that meets neither a pending call nor a holder of the lock runs fn if and only if no call of fn for its key has succeeded; otherwise it returns successfully |
| RequestCacheRuns.CalledAnyNumberOfTimes | clients/datasource/cache.go:65-107 | For every number there is a run in which that many Gets of one key have each called fn |
| RequestCacheRuns.NoFnAfterSuccess | clients/datasource/cache.go:67-107 | Once any Get of a key has returned success, a waiter released before the value was stored included, no goroutine starts fn for that key again in any continuation |
| RedHat.CompareTokens | semantic/version-redhat.go:58-194 | The two-index loop computes the lexicographic comparison of the tokens of both strings under tilde < end < caret < letters < numbers |
| RedHat.CompareComponents | semantic/version-redhat.go:50-194 | The same with the empty string as least element |
| RedHat.CompareRuns | semantic/version-redhat.go:121-179 | Popping one run from each side decides as the first tokens do and otherwise leaves the comparison of the rest |
| RedHat.TokensRead | semantic/version-redhat.go:61-149 | Tokens are maximal runs of digits by value, maximal runs of letters, each tilde and each caret; all other characters only separate |
| RedHat.KindsDecide | semantic/version-redhat.go:70-118 | What strings begin with decides: a tilde before the end, the end before a caret, a caret before letters, letters before digits |
| RedHat.SuffixesOrdered | semantic/version-redhat.go:70-114 | For all strings, a version followed by a tilde and anything is older, and followed by a caret and anything newer, than the version alone |
| RedHat.DigitRunsOrder | semantic/version-redhat.go:163-179 | Stripping zeros, then comparing lengths, then texts, compares the numbers |
| RedHat.ComponentCmpPreorder | semantic/version-redhat.go:50-194 | The comparison of components is a total preorder on all strings |
| RedHat.Compare | semantic/version-redhat.go:196-208 | Epoch, version and release decide in this order |
| RedHat.PartsDecide | semantic/version-redhat.go:196-208 | The epoch decides, then the version, then the release |
| RedHat.VersionCmpPreorder | semantic/version-redhat.go:196-208 | The comparison of parsed version strings is a total preorder |
| RedHat.ParsePrinted | semantic/version-redhat.go:232-253 | Parsing epoch:version-release gives back its three parts; an empty epoch is 0 |
| RedHat.ParseNoEpoch | semantic/version-redhat.go:232-253 | Without a colon, or with anything but digits before the first one, the epoch is 0 and the whole string is cut into version and release before the first hyphen |
| Debian.CompareStrings | semantic/version-debian.go:95-144 | The loop computes the comparison of the alternating texts and numbers of both strings, each padded without end, and never fails |
| Debian.PartsRead | semantic/version-debian.go:38-74 | A string is read as a text without digits and the number after it, by value, in turn |
| Debian.CompareTexts | semantic/version-debian.go:104-121 | The character loop compares the sequences of weights, padded with the weight of the end |
| Debian.SplitDigitPrefix | semantic/version-debian.go:38-59 | Takes off the leading digits and answers their value, 0 for none; the conversion never fails |
| Debian.StringCmpPreorder | semantic/version-debian.go:95-144 | The comparison is a total preorder on all strings |
| Debian.Compare | semantic/version-debian.go:157-177 | Epoch, upstream version and revision decide in this order; no error occurs |
| Debian.PartsDecide | semantic/version-debian.go:157-177 | The epoch decides, then the upstream version, then the revision |
| Debian.VersionCmpPreorder | semantic/version-debian.go:157-177 | The comparison of versions is a total preorder |
| Debian.WeightsFollowPolicy | semantic/version-debian.go:76-93 | The weights of any two ASCII characters, or the end, order them as section 5.6.12 of the Debian Policy Manual does, if and only if they are not NUL and the letter z |
| Debian.FollowsPolicyIff | semantic/version-debian.go:95-144 | For every set of ASCII characters, the comparison of all strings over it is the one of that section if and only if not both NUL and the letter z are in the set |
| Maven.SplitCharsInclusive | semantic/version-maven.go:239-251 | Cuts the string into pieces without delimiters, in turn with the delimiters between them |
| Maven.SplitShape | semantic/version-maven.go:239-251 | The pieces alternate with the delimiters, contain none themselves, and together are the string again |
| Maven.NewMavenVersion | semantic/version-maven.go:253-351 | The loops compute the tokens of all pieces, trimmed |
| Maven.AppendPiece | semantic/version-maven.go:274-326 | One piece contributes one normalised token for each run between digit transitions, the first with the piece's prefix, the others with a hyphen |
| Maven.TrimInPlace | semantic/version-maven.go:329-348 | The trimming loop, which jumps to the hyphens, computes the right-to-left trimming of the whole list |
| MavenOrder.ParseGood | semantic/version-maven.go:253-351 | Parsing any string leaves no null token after the first that is last or directly before a hyphen; prefixes are as the comparison needs them, numbers are in shortest form |
| MavenOrder.Compare | semantic/version-maven.go:177-218 | The loop computes the verdict of the first place where the padded token lists differ |
| MavenQualifiers.FirstDifferenceDecides | semantic/version-maven.go:177-218 | For all version strings, the first place where the parsed tokens differ decides |
| MavenQualifiers.EndDecides | semantic/version-maven.go:158-218 | A version string whose tokens go on where those of another end compares with it as its first token behind that does not tie with the end |
| MavenQualifiers.PrefixChain | semantic/version-maven.go:35-55 | Words behind a dot, words behind a hyphen, numbers behind a hyphen, numbers behind a dot come in this order |
| MavenQualifiers.NumbersLast | semantic/version-maven.go:77-104 | Behind one prefix words come before numbers, and numbers are ordered by value |
| MavenQualifiers.WordChain | semantic/version-maven.go:65-117 | Words come in the order alpha, beta, milestone, rc, snapshot, nothing, sp, then all others as text |
| MavenQualifiers.EndVerdict | semantic/version-maven.go:158-175 | How every token compares with the end of a shorter version: which come before it, which after it, which tie |
| MavenQualifiers.WordSpellings | semantic/version-maven.go:286-317 | What every lower-case word stands for: empty, cr, ga, final, release, and a, b and m with and without a digit behind them |
| MavenQualifiers.NumberSpellings | semantic/version-maven.go:319-322 | Numbers lose their leading zeros |
| MavenQualifiers.TwoRuns | semantic/version-maven.go:274-326 | A piece of a word and a number makes two tokens, the second behind a hyphen, the first spelled as followed |
| MavenOrder.PrintedParses | semantic/version-maven.go:253-351 | Every version of readable tokens that trimming leaves alone is parsed back from its text |
| MavenOrder.SamePrefixDecides | semantic/version-maven.go:77-117 | Of two different tokens with the same prefix exactly one is less |
| MavenOrder.PrefixDecides | semantic/version-maven.go:119-142 | Tokens with the prefixes hyphen and dot never tie |
| MavenOrder.LastDiffers | semantic/version-maven.go:177-218 | Padding never makes two different parsed versions look equal |
| MavenOrder.CompareParsed | semantic/version-maven.go:352-365 | For all strings the comparison of the parsed versions never fails, is 0 exactly for equal token lists and flips when the arguments are swapped |
| MavenOrder.NotTransitive | semantic/version-maven.go:352-365 | 1 < 1-sp < 1.0.alpha < 1 |
| MavenTransitivity.TransitiveIff | semantic/version-maven.go:144-218 | For every set of tokens that may follow the first one, the comparison of the versions over it, as parsing leaves them, is transitive if and only if the set is layered: no token that may come after the end of a shorter version is below one that may come before it, where a token that ties with the end counts for the "." tokens that can follow it |
| MavenQualifiers.StringsTransitiveIff | semantic/version-maven.go:253-365 | The same for version strings: among all strings whose tokens after the first are from a given set of readable tokens, the comparison is transitive if and only if the set is layered |
| MavenTransitivity.LessTransitive | semantic/version-maven.go:77-142 | On tokens that can stand at the same place, the comparison of tokens is transitive |
| MavenTransitivity.AgainstEnd | semantic/version-maven.go:158-218 | Against a version that has ended, the first token decides that differs from the null token it is padded against |
| MavenTransitivity.Circle | semantic/version-maven.go:177-218 | For any two tokens that break the condition there are three versions in a circle |
| MavenTransitivity.HyphenatedAreOrdered | semantic/version-maven.go:352-365 | All version strings with nothing but numbers behind dots are compared transitively |
| PyPI.Compare | semantic/version-pypi.go:405-429 | The chain of partial comparisons computes the lexicographic comparison of one key per version, with the dev trick as least and absence as greatest pre-release |
| PyPI.CompareLocal | semantic/version-pypi.go:336-378 | Local segments compare left to right, numbers above words, a prefix below the longer list |
| PyPI.KeyCmpPreorder | semantic/version-pypi.go:405-429 | The comparison is a total preorder on all versions |
| PyPI.ReleaseDecides | semantic/version-pypi.go:388-429 | For any two versions: those PEP 440 does not cover come first, then the epoch decides, then the release, whatever follows |
| PyPI.ReleasesTieIff | semantic/version-pypi.go:249-253 | Releases tie exactly if they are the same but for zeros at the end |
| PyPI.SuffixesDecide | semantic/version-pypi.go:255-429 | For any two PEP 440 versions of one epoch and release, whatever their later parts: the phase decides (.dev only < a < b < rc < none), then the number of the pre-release, then the post-release (none first), then the developmental release (none last), then the local part (PEP 440, section "Summary of permitted suffixes and relative ordering") |
| PyPI.NoLocalFirst | semantic/version-pypi.go:336-378 | A version without local part comes before the same version with any |
| PyPI.ParseLetterVersion | semantic/version-pypi.go:52-106 | Parsing a letter and a number fails on no digit string, gives nothing exactly for two empty parts, and otherwise the letter in lower case and normal spelling and the number; post and 0 stand where one is left out |
| PyPI.Spellings | semantic/version-pypi.go:52-106 | Which spelling, in any case, is read as a, b, rc, post and dev; a number without letter is a post-release |
| PyPI.NumbersRead | semantic/version-pypi.go:52-106 | Numbers are read by value, with leading zeros or not; a missing number is 0 |
| Packagist.Compare | semantic/version-packagist.go:74-124 | The loop with two-way recursion terminates and computes the comparison of pairs, then of the rest against the end |
| Packagist.WordVerdict | semantic/version-packagist.go:45-72 | Words are compared by their prefixes alone: dev and unknown words, a, b, rc, p; a number comes after rc and before p |
| Packagist.NumberVerdict | semantic/version-packagist.go:79-84 | Numbers are compared by value |
| Packagist.LongerVerdict | semantic/version-packagist.go:103-121 | A list that goes on behind another one is greater if it goes on with a number or a word of kind p, less with any other word |
| Packagist.ComponentsAreTokens | semantic/version-packagist.go:74-124 | On ordinary components it is lexicographic comparison under dev and unknown < a < b < rc < end < numbers by value < p |
| Packagist.ComponentsCmpPreorder | semantic/version-packagist.go:74-124 | On ordinary components it is a total preorder |
| Packagist.OrderedIffOrdinary | semantic/version-packagist.go:74-124 | Admitting one more component keeps the comparison transitive if and only if that component is ordinary: a number within 64 bits, or a word that does not start with # |
| RubyGems.Canonicalize | semantic/version-rubygems.go:21-48 | The loop puts a dot exactly between digits and non-digits that are neighbours |
| RubyGems.CanonicalJoins | semantic/version-rubygems.go:21-48 | Single characters stay; two strings are joined with one dot between a digit and a non-digit that are no dots, and with nothing else |
| RubyGems.CanonicalKeepsCharacters | semantic/version-rubygems.go:21-48 | Canonicalisation keeps all characters but dots, in order |
| RubyGems.CanonicalIsIdempotent | semantic/version-rubygems.go:21-48 | Canonicalising twice is canonicalising once |
| RubyGems.CanonicalSeparates | semantic/version-rubygems.go:21-48 | In a canonical string no digit is next to a non-digit other than a dot |
| RubyGems.SegmentsArePure | semantic/version-rubygems.go:127-132 | Every segment of such a string is all digits or has no digit |
| RubyGems.GroupSegments | semantic/version-rubygems.go:50-64 | Cuts the segments behind the leading numbers and loses none |
| RubyGems.RemoveZeros | semantic/version-rubygems.go:66-80 | Removes the zeros at the end |
| RubyGems.CanonicalSegments | semantic/version-rubygems.go:82-86 | Trailing zeros go from the numbers and from the rest separately |
| RubyGems.SegmentsMeaning | semantic/version-rubygems.go:50-86 | Zeros go from the end of the leading numbers and from the end of what follows the first segment that is no number; nothing else changes |
| RubyGems.Parse | semantic/version-rubygems.go:127-132 | Canonicalises, splits at dots and trims |
| RubyGems.AppendedZero | semantic/version-rubygems.go:21-86 | Appending .0 to any version string never changes its canonical segments |
| RubyGems.Compare | semantic/version-rubygems.go:88-115 | The loop compares both lists as if they went on with zeros |
| RubyGems.VersionsPreorder | semantic/version-rubygems.go:127-136 | The comparison of any two version strings is a total preorder |
| Semver.ParseSemverLike | semantic/version-semver-like.go:65-132 | The loop computes the components and the build string of the recursive scan behind an optional v |
| Semver.ScanPrinted | semantic/version-semver-like.go:65-132 | Printed components and build string read back as themselves |
| Semver.PrintedParses | semantic/version-semver-like.go:65-132 | A valid version string reads back as its three numbers and the rest, with a leading v or without |
| Semver.FetchComponentsAndBuild | semantic/version-semver-like.go:33-50 | Components beyond the limit move to the end of the build string, in order |
| Semver.MovedReadsBack | semantic/version-semver-like.go:33-50 | Components that were moved out read back, on their own, as those components |
| Semver.DeterminedIffNoBuild | semantic/version-semver-like.go:33-50 | When components are moved, the result determines which components and build string were scanned if and only if the build string was empty |
| Semver.Compare | semantic/version-semver.go:113-119 | Components decide, padded with zeros, then the pre-releases, a release being greatest |
| Semver.CompareIdentifiers | semantic/version-semver.go:55-97 | Identifiers compare left to right, numbers below words, a prefix below the longer list |
| Semver.VersionCmpPreorder | semantic/version-semver.go:113-119 | The comparison of versions is a total preorder |
| Semver.IdentifiersFollowItem11 | semantic/version-semver.go:55-97 | On identifiers that do not look negative the order is that of item 11 of Semantic Versioning 2.0.0 |
| Semver.FollowsItem11Iff | semantic/version-semver.go:55-97 | An identifier is placed as item 11 says among those that do not look negative if and only if it does not look negative itself |
| Semver.CompareFollowsItem11 | semantic/version-semver.go:24-119 | On valid versions, with any build metadata, the comparison is the precedence of item 11 |
| Semver.PrintedFollowsItem11 | semantic/version-semver.go:109-119 | Reading two valid version strings and comparing them yields their precedence under item 11 |
| Components.Cmp | semantic/version.go:48-68 | The loop compares both lists as if they went on with zeros |
| Orders.PadLexDecides | semantic/version.go:56-68 | The first place where two lists differ, both going on with the padding for ever, decides |
| Orders.LexDecides | semantic/version-semver.go:55-97 | The first place where two lists differ decides; if there is none, the shorter one is smaller |
| Components.PartVerdict | semantic/version-pypi.go:341-366 | Numbers are ordered by value, words as text, and numbers come after words under one order, before them under the other |
| Components.PartCmpPreorder | semantic/utilities.go:24-32 | Comparing numbers as numbers and words as text, with the numbers all above or all below the words, is a total preorder |
| Text.ToIntReadsDecimal | semantic/utilities.go:24-32 | Decimal notation of any number, with leading zeros and with either sign, converts to that number |
| Text.ToIntAccepts | semantic/utilities.go:24-32 | Exactly the strings of digits, at least one, behind at most one sign convert |
| RootFs.ResolveInRoot | fs/fs.go:204-271 | Answers a path exactly when the recursive resolution succeeds over an absolute link, and that path as text |
| RootFs.FollowParts | fs/fs.go:211-270 | The worklist loop, which puts the target of a link in front of what remains, terminates on every file system and agrees with the recursive resolution |
| RootFs.WalkOn | fs/fs.go:257-264 | Resolving a concatenation is resolving its parts one after the other |
| RootFs.WalkUp | fs/fs.go:226-232 | Two dots lead to the directory above; at the root they are refused |
| RootFs.DownAndUp | fs/fs.go:226-246 | A directory followed by two dots leads back to where the walk was |
| RootFs.WalkStays | fs/fs.go:223-225 | An empty component and a dot lead nowhere else |
| RootFs.WalkInto | fs/fs.go:234-246 | Directories are entered; a file, or a name that does not exist, must be the last component; what cannot be looked at or read is refused |
| RootFs.WalkLink | fs/fs.go:248-264 | A link uses up one of the links that may be followed, and its target is walked before the rest, from its own directory or from the root |
| RootFs.TargetPartsPrinted | fs/fs.go:255-264 | A target is its components with slashes between them, and one in front if it is absolute |
| RootFs.ValidPathIff | fs/fs.go:208-211 | A name is valid exactly if it is "." or none of the components between its slashes is empty, "." or ".." |
| RootFs.NothingAnswered | fs/fs.go:204-271 | Nothing is answered where no link is absolute, for the root, for invalid names, and after one of the three errors |
| RootFs.AbsoluteLinkAnswered | fs/fs.go:204-271 | A link to an absolute path without further links is answered by that path, whether something is there or not |
| RootFs.ChainAnswered | fs/fs.go:204-271 | A chain of absolute links to a file is answered if and only if it has at least one and at most 40 links |
| RootFs.WalkSound | fs/fs.go:217-270 | From a sound place resolution leads only to sound places |
| RootFs.ResolvedIsLinkFree | fs/fs.go:200-271 | A resolved path has no `.`, `..` or empty component, leads through existing directories that are no links and names no link; opened without following any link it leads to the same place |
| RootFs.MoreLinks | fs/fs.go:248-250 | The bound on links only ever turns success into failure |
| RootFs.CyclicLinksRefused | fs/fs.go:248-264 | Links that have to pass each other in a circle, of any length, directly or behind other components, are refused under every bound |
| RootFs.SelfLinkRefused | fs/fs.go:248-264 | In any directory, a relative link to itself, and an absolute one that names the directory as it is, is refused under every bound |
| RootFs.ResolveParentInRoot | fs/fs.go:185-198 | Resolves the directory part and keeps the last component; nothing is answered for names without directory part |
| Patches.ChoosePatches | guidedremediation/guidedremediation.go:445-503 | The result is the order-preserving subsequence of patches that are admissible - introduce nothing where forbidden, conflict with no earlier chosen one - as long as the limit is not used up |
| Patches.CompatibleIff | guidedremediation/guidedremediation.go:457-479 | Patches are compatible exactly if they change no package from the same version and fix no common vulnerability, in lockfile mode only of packages that are first updated alike |
| Patches.ChosenFit | guidedremediation/guidedremediation.go:445-503 | Chosen patches have pairwise disjoint changed packages and fixed vulnerabilities, obey noIntroduce and the limit; every other patch introduces something, conflicts with an earlier chosen one or comes after the limit |
| Patches.GreedyIsUnique | guidedremediation/guidedremediation.go:445-503 | The list and the options determine the choice |
| PatchOrder.RatiosTransitive | guidedremediation/result/result.go:63-68 | The comparison of cross-multiplied ratios is transitive, ties included |
| PatchOrder.RankingFlips | guidedremediation/result/result.go:60-107 | The ranking answers -1, 0 or 1 and flips when the arguments are swapped, for all patches |
| PatchOrder.RankingPrefers | guidedremediation/result/result.go:60-107 | The patch with more vulnerabilities fixed less introduced for each update comes first, then the one that fixes more, then the one with fewer updates, then the smaller name where the names first differ, then the smaller target where the targets first differ |
| PatchOrder.BumpVerdict | guidedremediation/result/result.go:89-104 | Targets that both parse are compared as versions, others as text |
| PatchOrder.RankingTransitive | guidedremediation/result/result.go:60-107 | The ranking is transitive on patches with updates whose targets are not tangled |
| PatchOrder.RankingIsPreorderIff | guidedremediation/result/result.go:60-107 | Over patches that update something, to versions of a given set, the ranking is transitive if and only if the set is not tangled; a set of versions that all parse never is |
| PatchOrder.EmptyPatchesIff | guidedremediation/result/result.go:60-107 | The whole condition, with any set of patches without updates among the others: the ranking is transitive if and only if the targets are not tangled, no patch without updates fixes as many vulnerabilities as it introduces, and those that fix more than they introduce fix more than those that fix less |
| BaseImage.ContainerImage.Pack | enricher/baseimage/baseimage.go:173-208 | Both passes leave exactly the packed groups, newest first behind the placeholder, and each layer's index |
| BaseImage.ContainerImage.CollectBoundaries | enricher/baseimage/baseimage.go:173-197 | The first pass puts each pre-existing group at its topmost layer, before the deps.dev group where the set of repositories changes |
| BaseImage.DepsDevGroupIff | enricher/baseimage/baseimage.go:186-196 | A deps.dev group is added exactly at layers with repositories that differ, as a set, from those of the nearest newer layer that has some, or that have no such layer; it has one detail for each repository |
| BaseImage.SameReposIsSetEquality | enricher/baseimage/baseimage.go:215-225 | On lists without repetition the check is equality of sets |
| BaseImage.IndexPointsToNearest | enricher/baseimage/baseimage.go:199-208 | A layer's index is in range, points to the group of the nearest boundary at or above the layer, to the placeholder exactly when there is none, and never decreases from newer to older layers |
| BaseImage.ExistingKeptOnce | enricher/baseimage/baseimage.go:176-184 | A pre-existing group that some layer refers to is kept at exactly one layer, the topmost one |
| BaseImage.ReferredGroupSurvives | enricher/baseimage/baseimage.go:173-208 | After packing, that group leads the packed group its topmost layer points to, relabelled with that layer's chain identifier; other layers that refer to it contribute only their deps.dev repositories |
| ModuleDiscovery.DiscoverModules | internal/mavenutil/maven.go:312-377 | Terminates on every finite file system; visits the least set that contains the initial paths and all paths that module and parent tags of its projects name; registers each complete project in it exactly once |
| ModuleDiscovery.TagsAreVisited | internal/mavenutil/maven.go:355-374 | For every visited project and module tag, the file of that name is visited, or else the pom.xml in the directory of that name; for a complete parent, the existing file at the relative path, or the existing pom.xml in the directory there |
| ModuleDiscovery.ParentPath | internal/mavenutil/maven.go:196-219 | The path answered is the one the relative path leads to, ../pom.xml if it is empty; none if nothing is there |
| ModuleDiscovery.LeastIsReachable | internal/mavenutil/maven.go:312-377 | That least set is what chains of edges reach from the initial paths, cycles included |

## Left out

- Strings are sequences of one-byte characters: no UTF-8 decoding, no case folding beyond ASCII.
- Secret detection: detectors are given functions that report equally many secrets and positions; a reader fails only after its content; the context is cancelled from some poll on, or never.
- Engine.DetectionEngine.Detect: requires that the read length is positive, or the context is cancelled at some time, or the stream does not fill the retained bytes; otherwise the source does not return.
- Engine.DetectionEngine.DetectRest: requires that the read length is positive or the context is cancelled at some time, for the same reason.
- FakeDetector.Detect: requires a non-empty word, because the source never returns for an empty one.
- Request cache: panics in fn, a fn that calls `Get` for its own key, and other guarantees on values than those of LoadedCache when `SetMap` replaces the cache during a run.
- RequestCacheRuns.SuccessesAgree: assumes that the run has no `SetMap`, which may replace values, as do RunValues, OneCallSucceeds, AgainOnlyAfterFailure, CallsFnIff and NoFnAfterSuccess, and the guarantees on values of SharedCache.
- Red Hat, Debian, RubyGems, PyPI and Packagist: the wrappers that parse their second argument from a string. `ParseDebianVersion` and the regular expressions of `ParsePyPIVersion` and of the Packagist canonicaliser are not part of this model; the comparisons start from what they produce.
- Maven: `mavenFindTransitions` is modelled as changes between digits and non-digits, not as a regular expression.
- MavenQualifiers.StringsTransitiveIff: speaks of readable tokens only, that is, not of empty values and of values with capitals, which no token written out in full has.
- Packagist.OrderedIffOrdinary: components without sign only, as the canonicaliser replaces signs by dots.
- PyPI.ReleaseDecides: the legacy parts of versions that are not PEP 440 versions are compared as one string; how they are cut out is not modelled.
- Symbolic links: a static file system as a map from clean paths to entries; `os.Root` itself, Windows volumes and backslashes, and concurrent changes are left out.
- Patches.ChoosePatches: requires that in lockfile mode a patch that fixes something updates something; the source panics otherwise.
- Patch ranking: the version system is given as a parser and a total preorder on what it parses.
- Base images: groups are values, so that two layers sharing details by reference is not modelled; the deps.dev queries and the computation of chain identifiers are inputs. A pre-existing group without details is dropped.
- Module discovery: path joining, decoding of pom.xml and merging of profiles are given functions; the contents handed to the client are not modelled.
- Alpine, CRAN, Hackage, NuGet and Pub comparators: the Alpine comparison is not transitive, the others would only add easy members over the shared lemmas.
- Extractors, registry clients, the walk over the file system, guided remediation strategies and manifest writers: input and output over libraries.
