# Sensu helper routines, modelled in Dafny

This project models the self-contained routines of `Sensu::Helpers`, the helper
class of the Sensu Chef cookbook, and proves what they promise.

- **`random_password`** is modelled in `password.dfy`, module `Password`.
  - It is a rejection-sampling loop. It draws one random byte at a time and keeps a byte only when it is an ASCII word character (`0-9`, `A-Z`, `a-z`, `_`).
  - Each kept character clears the first class it belongs to: digit, then `a..z`, then `A..Z`, otherwise "special".
  - The buffer grows until it has the requested length, raised to the number of requested classes, and holds one character of every requested class.
  - The random source is a parameter: the sequence of bytes it would hand out.
  - `RandomPassword` is the loop, written as a method with the source's variables. Its contract ties it to `Generate`, a step-by-step specification of the same loop.
  - The lemmas prove the promises about `Generate`: the length, the alphabet, the presence of each class, the loop invariant, that the password depends only on the bytes actually drawn, and a condition on the stream under which the call finishes.
- **`sanitize`** and **`select_attributes`** are modelled in `attributes.dfy`, module `Attributes`.
  - Attribute values form a recursive `Value` datatype. A Ruby hash is an insertion-ordered sequence of key/value pairs, and `Store` is `Hash#[]=`.
  - A lazy value (`Chef::DelayedEvaluator`) is the `Delayed` constructor, which carries the value its `call` returns.
  - `Sanitize` is the source's loop with its recursion, proved against the function `SanitizeHash`.
  - `SelectAttributes` is the `reject` filter.
- **`amazon_linux_2_rhel_version`**, **`redhat_version_string`** and **`amazon_linux_2_version_string`** are modelled in `versions.dfy`, module `PlatformVersions`.
  - The last two have the same text, so the single function `VersionString` models both.
  - `Gem::Version` is not modelled. The comparison with `0.27.0` and `segments.first` are function parameters.
- `wrappers.dfy` holds the `Option` and `Result` datatypes. `None` is Ruby's `nil` or an exhausted byte stream. `Failure` is a raised exception and carries its message.

The "special" class of `random_password` can only ever be met by `_`. The byte filter at `libraries/sensu_helpers.rb:76` strips every non-word byte before classification, so `_` is the only kept character that is neither a digit nor a letter. The model follows the code (`SpecialIsUnderscore`), not the wider reading "any other printable character". A class is guaranteed at least once, not exactly once: later draws may add more characters of the same class.

## Model

| member | source | states |
|---|---|---|
| Password.Scrub | libraries/sensu_helpers.rb:76 | one draw after `gsub(/\W/, '')`: at most one character, and a word character; it is non-empty exactly when the byte, read as a character, is a word character, and then it is that character |
| Password.ScrubKeepsWordBytes | libraries/sensu_helpers.rb:76 | the `gsub(/\W/, '')` filter keeps a byte exactly when it is `0-9`, `A-Z`, `_` or `a-z`; it keeps that byte as a one-character string; every byte from 0x80 up is dropped |
| Password.SpecialIsUnderscore | libraries/sensu_helpers.rb:76-90 | a kept character that is not a digit and not a letter is `_`, so `_` is the only character that can meet the "special" class |
| Password.Classify | libraries/sensu_helpers.rb:77-91 | the classification chain clears the number flag for a digit, the lower flag for `a..z`, the upper flag for `A..Z`, and the special flag for anything else, each only when no earlier branch matched; every other flag is unchanged; `requiredOffset` drops by exactly the number of flags cleared, so by one when the cleared class was still required |
| Password.Tally | libraries/sensu_helpers.rb:77-91 | the `if`/`elsif` chain updates `requiredOffset` and the four flags exactly as the classification function `Classify` does: the first matching class is cleared, and the count drops only if that class was still required |
| Password.ClassifyCounts | libraries/sensu_helpers.rb:77-91 | classification keeps `requiredOffset` equal to the number of flags still set; it clears at most one flag, and only one that was requested; a cleared flag matches the character's class in the chain's priority order; the count drops by one exactly when a flag is cleared |
| Password.Start | libraries/sensu_helpers.rb:65-72 | the state before the loop: an empty buffer, `requiredOffset` equal to the number of flags set, the flags as passed, and `limit` true exactly when `length` exceeds the number of requested classes |
| Password.Round | libraries/sensu_helpers.rb:92-95 | one round only ever appends to the buffer, at most the kept string; when `limit` holds the kept string is appended whole; `requiredOffset` never grows |
| Password.StepFromClassified | libraries/sensu_helpers.rb:92-95 | after classification, one round recomputes `limit` against the lowered `requiredOffset`, and appends the kept string exactly when `limit` holds |
| Password.StartEstablishesInvariant | libraries/sensu_helpers.rb:65-72 | before the loop, the state meets the loop invariant: the count matches the flags, `password.length + requiredOffset <= length`, the buffer is full when `limit` is false, and every character is a word character |
| Password.StepKeepsInvariant | libraries/sensu_helpers.rb:74-95 | every round keeps the loop invariant, including "each requested class that is no longer required has a character in the buffer": the draw that first meets a required class is always appended |
| Password.RoundKeepsInvariant | libraries/sensu_helpers.rb:92-95 | appending under the recomputed `limit` keeps the buffer within `length - requiredOffset`; when a class is cleared, `limit` is true, so its character is appended |
| Password.Run | libraries/sensu_helpers.rb:74-96 | the loop from a given state and stream position: a finished run reports a position between the start and the end of the stream, past the start when the guard held; the buffer it returns extends the buffer it started from |
| Password.Generate | libraries/sensu_helpers.rb:64-98 | a whole call: a finished call draws at most the whole stream; with `length <= 0` and no flag set, the loop is never entered, so the result is `""` and no byte is drawn |
| Password.RunSatisfies | libraries/sensu_helpers.rb:74-97 | a loop run from a state meeting the invariant, if it finishes, returns a password of exactly the raised length, made of word characters and holding one character of each requested class; it draws no byte beyond the stream |
| Password.GenerateSatisfies | libraries/sensu_helpers.rb:64-98 | the returned password has length `max(length, number of requested classes)`, only `[0-9A-Za-z_]` characters, and a digit, upper-case letter, lower-case letter or `_` for each flag that was set |
| Password.RunUsesOnlyDrawnBytes | libraries/sensu_helpers.rb:74-76 | a finished loop run depends only on the bytes it drew: cutting the stream after them, or extending it, gives the same result |
| Password.GenerateUsesOnlyDrawnBytes | libraries/sensu_helpers.rb:64-98 | the same for a whole call: the result is determined by the first `drawn` bytes of the stream |
| Password.StepKeepsSufficient | libraries/sensu_helpers.rb:76-95 | a round that draws a byte leaves the rest of the word characters sufficient to finish: a class it does not clear still occurs later, and the buffer is either filled to its reserved room or still within reach |
| Password.RunFinishes | libraries/sensu_helpers.rb:74-96 | a run from any state meeting the loop invariant returns once the bytes before position `j` hold each class still required and enough word characters to fill the buffer, and a byte at `j` exists; it draws at most `j + 1` bytes |
| Password.GenerateFinishes | libraries/sensu_helpers.rb:64-98 | the call returns, with a password meeting the promise, once the first `j` bytes hold at least the raised length in word characters and one of every requested class; at most `j + 1` bytes are drawn |
| Password.AllClassesExample | libraries/sensu_helpers.rb:64-98 | length 3 with all four classes, on the bytes `a1B_x`: the length is raised to 4, the password is `a1B_`, and five bytes are drawn |
| Password.RunWithoutClasses | libraries/sensu_helpers.rb:92-95 | with no class left to track, the buffer only grows by the kept characters, in the order drawn |
| Password.GenerateWithoutClasses | libraries/sensu_helpers.rb:64-98 | with no flag set, the password is exactly the first `max(length, 0)` word characters of the stream, and no kept byte is skipped |
| Password.RandomPassword | libraries/sensu_helpers.rb:64-98 | the loop, with the source's variables, returns what `Generate` specifies (`None` when the stream runs out first); a returned password has the promised length, alphabet and classes; at most the whole stream is drawn; with `length <= 0` and no flags it returns `""` after drawing nothing |
| Attributes.Store | libraries/sensu_helpers.rb:21 | `sanitized[key] = v`: afterwards `key` maps to `v`, and every other key maps to what it mapped to before |
| Attributes.StoreKeySet | libraries/sensu_helpers.rb:25 | storing adds its key to the hash's keys and no other key |
| Attributes.StoreKeepsDistinct | libraries/sensu_helpers.rb:25 | storing into a hash without repeated keys never creates a repeated key |
| Attributes.StoreAppendsNewKey | libraries/sensu_helpers.rb:25 | a key not yet in the hash is appended at the end, so insertion order is kept |
| Attributes.Evaluate | libraries/sensu_helpers.rb:17 | a lazy value is replaced by what its `call` returns; anything else is left as it is |
| Attributes.Cleaned | libraries/sensu_helpers.rb:17-26 | one entry is dropped exactly when its value, once evaluated, is `nil` or an empty hash; a hash stays a hash and becomes no longer; any other value is stored as evaluated |
| Attributes.SanitizeHash | libraries/sensu_helpers.rb:13-29 | `sanitize(raw)`: the result never has more entries than the raw hash |
| Attributes.SanitizedPrefix | libraries/sensu_helpers.rb:14-27 | the hash built after visiting `i` entries has at most `i` entries |
| Attributes.Sanitize | libraries/sensu_helpers.rb:13-29 | the loop with its recursion returns `SanitizeHash(raw)`; the result holds no `nil` at any depth; it has no key the input lacks |
| Attributes.CleanedNilFree | libraries/sensu_helpers.rb:17-25 | what is stored for one entry, after one lazy evaluation, is never `nil` and holds no `nil` in its nested hashes |
| Attributes.SanitizeNilFree | libraries/sensu_helpers.rb:13-29 | the sanitized hash holds no `nil` value at any level of hash nesting |
| Attributes.SanitizeKeys | libraries/sensu_helpers.rb:13-29 | the sanitized hash introduces no key and repeats none |
| Attributes.SanitizeLookup | libraries/sensu_helpers.rb:15-26 | key by key, for a Ruby hash: a key whose value is `nil`, evaluates to `nil`, or evaluates to an empty hash disappears; a non-empty hash maps to its recursive sanitization (kept even when that is empty); any other value maps to its evaluated self, unchanged |
| Attributes.SanitizeNotIdempotent | libraries/sensu_helpers.rb:19-23 | `{"a" => {"b" => nil}}` sanitizes to `{"a" => {}}` because the raw inner hash was not empty; sanitizing that again gives `{}` |
| Attributes.ArrayOf | libraries/sensu_helpers.rb:9 | `Array(keys)`: `nil` gives `[]`; an array gives its items; a hash gives, entry by entry and in order, the pair `[key, value]`; anything else gives `[keys]` |
| Attributes.Selected | libraries/sensu_helpers.rb:9 | the negated `reject` test: an entry with a `nil` value is never kept; with a string, the entry is kept exactly when its key's name is that string; with an array, exactly when the name, as a string, is an item; with anything else (`nil`, a symbol, a hash, a number), nothing is kept |
| Attributes.SelectAttributes | libraries/sensu_helpers.rb:7-11 | an entry is in the result exactly when it is in the input, its stringified key is in `Array(keys)`, and its value is not `nil`; values are not altered |
| Attributes.SelectAttributesSubsequence | libraries/sensu_helpers.rb:8-10 | the kept entries keep their relative order: the result is a subsequence of the input |
| Attributes.SelectAttributesIdempotent | libraries/sensu_helpers.rb:7-11 | selecting again with the same keys changes nothing |
| Attributes.SelectAttributesLookup | libraries/sensu_helpers.rb:7-11 | for a Ruby hash, the result is again a hash without repeated keys, and a key looks up its original value when the entry is kept, and nothing otherwise |
| PlatformVersions.MatchesYear | libraries/sensu_helpers.rb:154 | `/201\d/.match?(s)` holds exactly when some position of `s` starts `201` followed by a digit |
| PlatformVersions.Includes | libraries/sensu_helpers.rb:156 | `s.include?(sub)` holds exactly when `sub` occurs at some position of `s` |
| PlatformVersions.RhelVersion | libraries/sensu_helpers.rb:153-158 | `amazon_linux_2_rhel_version` returns only "6" or "7", and otherwise raises with the message `Unsupported Linux platform version <v> - rhel version unknown` |
| PlatformVersions.RhelVersionCases | libraries/sensu_helpers.rb:153-158 | "6" exactly when a `201`+digit occurs; "7" exactly when none occurs and the version is `"2"` or contains `amzn2`; an error exactly when neither holds |
| PlatformVersions.YearBeatsAmazonLinux2 | libraries/sensu_helpers.rb:154-156 | a version that holds both a year and `amzn2` (`"amzn2-2018"`) gives "6": the year test comes first |
| PlatformVersions.FirstField | libraries/sensu_helpers.rb:139 | the first `-`-separated field is the longest prefix of the version without a `-` |
| PlatformVersions.BareVersion | libraries/sensu_helpers.rb:139 | `split('-').first` is `nil` exactly when the version is empty or all dashes; otherwise it is the first field |
| PlatformVersions.BareVersionOfRelease | libraries/sensu_helpers.rb:139 | the bare version of `bare + "-" + release` is `bare`, for a non-empty `bare` without a dash |
| PlatformVersions.VersionString | libraries/sensu_helpers.rb:138-147 | the Sensu version is always a prefix of the result, and below 0.27.0 it is the whole result. `amazon_linux_2_version_string` (libraries/sensu_helpers.rb:167-176) has the same text, so this one function models both helpers, which agree on every input |
| PlatformVersions.VersionStringCases | libraries/sensu_helpers.rb:138-147 | from 0.27.0 on, the result is the Sensu version followed by the override when one is given, and otherwise by `.el` and the platform's major version |
| PlatformVersions.VersionStringReadsBareVersion | libraries/sensu_helpers.rb:139-145 | the comparison sees only the bare version: for `bare + "-" + release`, the result is decided by comparing `bare` |

## Left out

- `gem_binary`, `data_bag_item`, `windows_user_exists?`, `windows_service_exists?`, `chmod_files` and `sensu_ruby_version` are not modelled. They are filesystem checks, Chef data bags and vaults, Win32 probes, Chef resources and shell-outs, with no logic of their own to prove.
- `OpenSSL::Random.random_bytes` is replaced by the byte sequence `bytes`. Randomness, its quality and the distribution of the output cannot be stated here.
- Password.RandomPassword: the Ruby loop has no bound and waits forever for a missing class. The model stops when the byte sequence runs out and returns `None`. `GenerateFinishes` gives a sufficient condition for finishing, not the exact number of bytes needed.
- Password.RandomPassword: Ruby's default arguments (`length = 20`, all flags `false`) are not modelled; every argument is passed explicitly. A non-integer `length` is not modelled.
- The unused local `push` at `libraries/sensu_helpers.rb:75` is not modelled.
- Attributes: keys are strings or symbols only. Values are `nil`, booleans, integers, strings, symbols, arrays, hashes and lazy values. Other Ruby objects, such as floats, are not modelled.
- Attributes: a Chef `DelayedEvaluator` is the value its `call` returns. The evaluation's own side effects are not modelled.
- Attributes: hash subclasses (Chef's `Mash` and immutable attribute hashes) are treated as plain hashes. `attributes.to_hash` is taken as already done: `SelectAttributes` receives the hash.
- Attributes.SanitizeLookup: the per-key statement is proved for inputs without repeated keys, which every Ruby hash satisfies. `Sanitize` itself accepts any sequence.
- PlatformVersions.VersionString: `Gem::Version.new`, its ordering and `segments.first` are parameters, not interpreted. So is the `ArgumentError` it raises on a malformed version string, including a `nil` bare version on RubyGems releases that reject it.
- PlatformVersions.RhelVersion: the platform version is a string. A `nil` platform version, for which Ruby raises a `NoMethodError`, is not modelled.
