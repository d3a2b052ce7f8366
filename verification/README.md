# python-nss-ng: models and proofs

A Dafny model of the four parts of python-nss-ng that have an algorithm of their own, with proofs
of what they promise. `dafny verify dfyconfig.toml` checks everything. Source paths below are those of the
repository.

**Buffered socket reads** (`ByteStream`, `SocketRuns`, `Socket`). `readline`, `recv`, `read`, `readlines` and
iteration share one growable read-ahead array; some append to it, some shift it in place, some
drain and free it and go on reading from the network. `ByteStream` says what lines are, `SocketRuns`
which steps each call may take on the stream behind the buffer and what holds over every run of
such steps, and `Socket` is the code over an `array`, proved to take only those steps. `PR_Recv` is a method
that delivers any number of bytes it likes, or fails, which it counts.

**Redaction of log messages** (`Regex`, `Patterns`, `Splicing`, `Redaction`, `SecretMasking`, `KeyScanner`,
`SecondRedaction`, `Lowercase`, `SecureLogging`). `Regex` gives the meaning of the regular expressions: every match end in
the order in which backtracking tries them, the first being the match reported. `Patterns` holds the
four patterns as values of that type and states what a match of each is in terms of the text. `Splicing`
is the text-building half of `re.sub`. `KeyScanner` and `SecretMasking` prove all four stages equal to plain scanners
that know no regular expression. From there the theorems go on to what survives all four stages, what a
second redaction does, how the classifier and the pipeline fit together, and what reaches the wrapped logger.
How Unicode classifies the characters above ASCII is a parameter about which nothing is assumed,
except that the three non-ASCII letters that IGNORECASE folds to ASCII ones are letters.

**Non-overwriting tree merge** (`SourceTree`, `MergeBooks`, `ScriptRules`, `ImportFiles`). The recursion of import_files.py over a
source tree, with pruning, into a destination that is a map from paths to entries. Every mkdir and
every copy is free to fail, and files may stand where directories are wanted. The exclusion rules are a
parameter of all proofs; `RULES` holds the script's own, and `ScriptRules` says what they come to name by name.

**Error table** (`ErrorTable`). Sorting the table of error codes, the check after it, and the search with the
`low + 1 < high` loop.

What the source does, where that is not what one would expect, and is modelled as it is:

- `readline(0)` and `readline` with a negative size have no limit (src/py_nspr_io.c:2426-2430), although the
  documentation (src/py_nspr_io.c:2378-2381) calls any non-negative size a limit: `ByteStream.DocumentedLimit` says
  when that holds.
- `readlines` returns the empty string of the end of the stream as its last item (src/py_nspr_io.c:2524-2533).
- A second `Socket_init` keeps the read-ahead of the first connection (src/py_nspr_io.c:3378-3411):
  `Sockets.Socket.Reinit`. Everything said of a stream is said per connection.
- redact_message is not idempotent: `SecondRedaction.RedactionIsNotIdempotent` gives the message,
  `SecondRedaction.RedactTwice` the exact condition.
- `pwd` is masked (src/secure_logging.py:114) but not forbidden (src/secure_logging.py:39-53), so a PUBLIC message
  can still be changed by redact_message: `SecureLogging.PublicCanChange`. It is left alone exactly when every
  keyword assignment in it is written as the mask already: `SecureLogging.PublicIsLeftAlone`.
- The look-ahead of the second pattern scans to the end of the line, not of the run (src/secure_logging.py:106).
- `mkdir(parents=True)` in import_files.py never makes more than one directory in a run: the recursion reaches
  a path only once something stands at its parent. `ImportFiles.Importer.HasParent` is that invariant.

## Model

| member | source | states |
|---|---|---|
| Regex.ThenSplits | src/secure_logging.py:102-115 | a match of a concatenation is two adjacent matches |
| Regex.ThenJoins | src/secure_logging.py:102-115 | two adjacent matches are a match of the concatenation |
| Regex.ThenFirst | src/secure_logging.py:102-115 | the reported match of a concatenation is the reported match of its second part from some end of the first |
| Regex.ThenGreedyFirst | src/secure_logging.py:102-115 | the reported match of a greedy class, bounded or not, and something behind it has the class end at the last place from which the rest can be matched |
| Regex.GreedyMatches | src/secure_logging.py:102-115 | a greedy class matches every stretch of the class of an allowed length, and nothing else |
| Patterns.PaddedHasShape | src/secure_logging.py:102 | a match of the padded pattern is 40 or more base64 characters from a word boundary, one or two `=`, and no word character behind |
| Patterns.PaddedShapeMatches | src/secure_logging.py:102 | and every such text is matched |
| Patterns.PaddedTakesMost | src/secure_logging.py:102 | of all such texts from one place the longest is reported |
| Patterns.MixedMeans | src/secure_logging.py:106 | the second pattern matches exactly the bounded base64 runs of 40 or more with a non-hex character somewhere on the rest of the line |
| Patterns.HexMeans | src/secure_logging.py:110 | the third pattern matches exactly the whole words of 32 or more hex digits |
| Patterns.WholeTakesMost | src/secure_logging.py:106-110 | of all stretches from one place that end at a word boundary the longest is reported |
| Patterns.KeywordMeans | src/secure_logging.py:114 | the alternation matches exactly the four keywords, case ignored as Unicode IGNORECASE does |
| Patterns.AssignmentHasShape | src/secure_logging.py:114 | the rest of the password pattern reports blanks, a separator, blanks, and a value that runs to the next blank |
| Patterns.AssignmentShapeUnique | src/secure_logging.py:114 | there is only one way to read such an assignment |
| Redaction.SecretHasShape | src/secure_logging.py:113-115 | a password match keeps the keyword and replaces exactly the separator and the whole value |
| Redaction.SecretShapeHits | src/secure_logging.py:113-115 | and every keyword with an assignment is matched that way |
| Redaction.StageKeepsRuns | src/secure_logging.py:102-115 | no stage creates a bounded key-like run: each one in its output stood in its input, where the stage's pattern does not match |
| Redaction.UnmatchedRunIsHex | src/secure_logging.py:106-110 | a bounded base64 run that stage two does not match consists of hex digits |
| Redaction.MixedLeavesHex | src/secure_logging.py:106 | bounded base64 runs of 40 or more left by stage two are all hex runs |
| Redaction.HexLeavesNone | src/secure_logging.py:110 | stage three leaves no hex word of 32 or more digits |
| Redaction.HexRunsOnlyAndNone | src/secure_logging.py:102-110 | if all long runs of a text are hex runs, and all those of the next text come from it and none is hex, the next text has none |
| Redaction.MaskKeysLeavesNoRuns | src/secure_logging.py:102-110 | the first three stages leave neither kind of run |
| Redaction.RedactedHasNoKeys | src/secure_logging.py:84-115 | for every message the redacted text has no bounded base64 run of 40 or more and no hex word of 32 or more |
| KeyScanner.KeyEditTakesMost | src/secure_logging.py:102-110 | what a key stage replaces at a place is the longest text of its shape there |
| KeyScanner.KeyEditHasShape | src/secure_logging.py:102-110 | and it replaces nothing else |
| KeyScanner.LeadingIsRun | src/secure_logging.py:102-110 | the stretch of key characters, tested by their codes, is the one the greedy class takes |
| KeyScanner.EditIsKeyEdit | src/secure_logging.py:102-110 | at every position the regular expression and the scanner agree on whether a key starts, where it ends, and what is written for it |
| KeyScanner.SubIsMaskedKeys | src/secure_logging.py:102-110 | each key stage equals a scanner without regular expressions and positions that takes the longest key and copies everything else |
| KeyScanner.RedactIsScanned | src/secure_logging.py:84-115 | redact_message is four such scanners in turn, with the masks spelled out and characters tested by their codes |
| Splicing.SpliceNothing | src/secure_logging.py:102-115 | a substitution without a match changes nothing |
| Splicing.RunOrigin | src/secure_logging.py:102-115 | where a long run between word boundaries in a substitution's result comes from, for any such substitution |
| Splicing.SpliceCounts | src/secure_logging.py:102-115 | a substitution whose matches each swallow a character that no replacement has makes it rarer |
| SecretMasking.SubIsMasked | src/secure_logging.py:113-115 | the password stage equals a scanner written without regular expressions |
| SecretMasking.MaskedBegins | src/secure_logging.py:113-115 | masking brings no secret into being: one that begins at the front of the result begins at the front of the text |
| SecretMasking.MaskedTwice | src/secure_logging.py:113-115 | the password stage applied twice equals it applied once |
| SecretMasking.MaskedLeavesAlone | src/secure_logging.py:113-115 | the password stage leaves a text alone exactly when every keyword assignment, wherever it stands, has the mask for its separator and value |
| SecondRedaction.RedactedSecrets | src/secure_logging.py:112-115 | in a redacted text, what stands behind a keyword with a value assigned to it, in any mix of cases, is always the mask |
| SecondRedaction.NoRunsNoFinds | src/secure_logging.py:106-110 | stages two and three find nothing exactly in the texts without the two kinds of run |
| SecondRedaction.StageEquals | src/secure_logging.py:102-115 | no stage adds an `=` and a padded match removes one |
| SecondRedaction.RedactTwice | src/secure_logging.py:84-115 | on a redacted text the last three stages are the identity, and redacting it again is the identity exactly when the padded pattern does not match it |
| SecondRedaction.RedactionIsNotIdempotent | src/secure_logging.py:102-115 | a message that a second redaction changes again |
| Lowercase.SpliceKeepsAbsent | src/secure_logging.py:102-115 | a word foreign to the masks is in the lower-cased result only if it is in the lower-cased text |
| Lowercase.ContainsIsSpelled | src/secure_logging.py:129-134 | a lower-case ASCII word that does not end in i is in the lower-cased message exactly when the message spells it somewhere, case ignored (the Kelvin sign being a k) |
| SecureLogging.SensitiveMeans | src/secure_logging.py:38-53 | SENSITIVE is exactly the messages whose lower case contains one of the thirteen words, written out |
| SecureLogging.HasIsSpells | src/secure_logging.py:129-135 | and these are the messages that spell one of them in any mix of cases |
| SecureLogging.ClassifierMeans | src/secure_logging.py:120-151 | a message without such a word is REDACTED if it has a key of one of the three shapes anywhere, and PUBLIC if not |
| SecureLogging.SearchesIsFinds | src/secure_logging.py:137-148 | the classifier's searches and the pipeline's substitutions find something in the same messages |
| SecureLogging.ClassifierAgrees | src/secure_logging.py:118-150 | a message without forbidden words is PUBLIC exactly when the key stages leave it alone and REDACTED exactly when they shorten it |
| SecureLogging.PublicHasNoKeys | src/secure_logging.py:137-150 | PUBLIC messages have neither kind of run |
| SecureLogging.RedactionBringsNoForbidden | src/secure_logging.py:39-53 | redaction brings no forbidden word into a message that had none |
| SecureLogging.AsciiAgreement | src/secure_logging.py:102-150 | for ASCII messages without pwd, PUBLIC means left alone and REDACTED means strictly shorter after the whole pipeline |
| SecureLogging.PublicIsLeftAlone | src/secure_logging.py:102-150 | a PUBLIC message is left alone by redact_message exactly when every keyword assignment in it is written as the mask already, with any characters |
| SecureLogging.PublicCanChange | src/secure_logging.py:114 | pwd=x is PUBLIC and becomes pwd and the mask |
| SecureLogging.LoggedIsClean | src/secure_logging.py:181-200 | with auto_redact, a call delivers exactly if it is not sensitive and mentions none of the thirteen words, and what it delivers has none of them and neither kind of run |
| SecureLogging.SpelledIsNotLogged | src/secure_logging.py:181-200 | with auto_redact, a message is delivered exactly if the caller does not call it sensitive and it spells none of the words in any mix of cases |
| SecureLogging.SecureLogger.LogMessage | src/secure_logging.py:181-200 | which of raising, dropping, logging unchanged and logging redacted happens, for every setting, argument and message, and the text of the exception; the wrapped logger, whatever it holds, gets exactly one record if the call delivers and none if not; with auto_redact all that ever went through the wrapper is clean |
| SecureLogging.DecideMeans | src/secure_logging.py:181-200 | the same for the specification of a call, in terms of the words and the key shapes |
| SecureLogging.DeliveredIsClean | src/secure_logging.py:181-200 | over every sequence of calls with auto_redact on, every delivered message has none of the thirteen words and neither kind of run |
| ByteStream.LineLengthIsShortest | src/py_nspr_io.c:2425-2442 | a line ends at the first newline, at a positive limit, or at the end of the stream, whichever comes first |
| ByteStream.DocumentedLimit | src/py_nspr_io.c:2378-2381 | for a size that is not negative, the documented limit holds exactly if the size is positive or nothing is left to read |
| ByteStream.LinesUnique | src/py_nspr_io.c:2548-2562 | the lines are the one division of the stream into non-empty items with newlines only at their ends and at all ends but the last |
| ByteStream.UnhintedLines | src/py_nspr_io.c:2518-2536 | readlines without a positive hint is all lines and one empty string |
| ByteStream.HintedLinesStop | src/py_nspr_io.c:2518-2536 | with a positive hint it stops where the total first reaches it or the stream ends; without the last item the total is below it, and the items are a prefix of the stream |
| ByteStream.BoundedThenRest | src/py_nspr_io.c:2425-2442 | a bounded line that does not end the line leaves exactly the rest of it |
| SocketRuns.StepTakes | src/py_nspr_io.c:2410-2738 | every call takes a prefix of the stream: what it delivers if it succeeds; the read-ahead and what it had read if it fails |
| SocketRuns.RunConserves | src/py_nspr_io.c:2410-2738 | over every run delivered, lost and pending bytes are the original stream in its order |
| SocketRuns.RunDelivers | src/py_nspr_io.c:2410-2738 | without failures the delivered bytes, the read-ahead and the unread bytes are the original stream |
| SocketRuns.RunUndisturbed | src/py_nspr_io.c:2410-2738 | in a run that counts no failure no read failed, no byte is lost, and iterating yields the lines and then stops |
| SocketRuns.ChunkingInvisible | src/py_nspr_io.c:2410-2484 | the same calls other than recv on the same stream give the same replies, however it is split between buffer and network and whatever pieces arrive |
| SocketRuns.IterationYieldsLines | src/py_nspr_io.c:2548-2562 | iterating yields the lines of the stream and then stops for good |
| SocketRuns.ItemsAre | src/py_nspr_io.c:2548-2562 | the k-th item is the k-th line, or StopIteration behind the last |
| SocketRuns.BoundedReadsCompose | src/py_nspr_io.c:2425-2442 | the pieces of repeated readline(k) up to the one that ends the line are together the unbounded line, and leave the stream where it does |
| Sockets.PRFileDesc.Recv | src/py_nspr_io.c:2456-2460 | PR_Recv delivers some bytes, at least one unless none is asked for or the stream has ended, or fails, takes nothing and is counted |
| Sockets.Memmove | src/py_nspr_io.c:2481 | shifting down within one array keeps the bytes shifted and leaves the elements behind them alone |
| Sockets.Socket.constructor | src/py_nspr_io.h:72-77 | a new socket has an empty read-ahead |
| Sockets.Socket.FreeReadahead | src/py_nspr_io.h:79-84 | the read-ahead is back in its initial state |
| Sockets.Socket.EnsureRoom | src/py_nspr_io.c:2445-2454 | a refill has at least 1024 bytes of room, the buffered bytes stay, and the capacity stays a multiple of 1024 less than 2048 above the peak since the last free |
| Sockets.Socket.Refill | src/py_nspr_io.c:2445-2470 | a refill appends what arrived to the read-ahead and the peak is the largest length so far; a failure, which is one of PR_Recv, resets the read-ahead |
| Sockets.Socket.TakeFront | src/py_nspr_io.c:2474-2483 | the front goes to the caller and the tail stays, in place |
| Sockets.Socket.BufferedLine | src/py_nspr_io.c:2421-2442 | the scan finds a line exactly when a newline is buffered or the limit is reached, and it is the next line of the stream |
| Sockets.Socket.FillLine | src/py_nspr_io.c:2419-2472 | refilling moves bytes from the network to the buffer until the next line, or the end of the stream, is buffered, and only if it was not at the start; it fails exactly if PR_Recv did |
| Sockets.Socket.Readline | src/py_nspr_io.c:2410-2484 | the reply is the next line of the stream and leaves what follows it; it is a failure exactly if PR_Recv failed, once, and then the read-ahead is in its initial state |
| Sockets.Socket.Recv | src/py_nspr_io.c:2597-2664 | a prefix of the stream of at most n and at least min(n, buffered) bytes, empty only for n = 0 or at the end; no network read if a non-empty buffer covers n and exactly one otherwise; a failure exactly if that one failed, and then the read-ahead is reset |
| Sockets.Socket.RecvThrough | src/py_nspr_io.c:2627-2663 | the buffer is drained, freed, and followed by what one network read delivers; a failure leaves it reset |
| Sockets.Socket.FillAll | src/py_nspr_io.c:2699-2730 | the loop of read: everything to the end of the stream is buffered, or PR_Recv failed |
| Sockets.Socket.Read | src/py_nspr_io.c:2678-2739 | a negative size reads everything to the end of the stream; otherwise it is recv; it fails exactly if PR_Recv did, and then the read-ahead is reset |
| Sockets.Socket.Readlines | src/py_nspr_io.c:2499-2537 | the list is the hinted lines of the stream and exactly what leaves it; it fails exactly if PR_Recv did, and then abandons the list and resets the read-ahead |
| Sockets.Socket.Next | src/py_nspr_io.c:2548-2562 | the next line, or StopIteration exactly at the end of the stream; it fails exactly if PR_Recv did |
| Sockets.Socket.Reinit | src/py_nspr_io.c:3378-3411 | the bytes buffered from the old connection come before those of the new one |
| Sockets.Socket.Close | src/py_nspr_io.c:2347-2371 | after close every read reports a closed socket |
| Sockets.AnyClient | src/py_nspr_io.c:2410-2738 | every sequence of calls on a socket is a run, with delivered, lost and pending bytes in the order of the stream and a capacity below the longest stream held plus 2048; as many reads fail as PR_Recv does, and if that is none, no byte is lost and iterating yields the lines |
| Sockets.WholeConnection | src/py_nspr_io.c:2410-2738 | the same from a new socket on: the capacity stays below the length of the stream plus 2048, and unless PR_Recv fails no read does and all bytes are delivered or pending |
| SourceTree.VisitsAreWanted | import_files.py:51-118 | the pruned recursion reaches a path exactly when it is in the source and none of its prefixes is excluded by itself |
| SourceTree.AllowedIsPrefixWise | import_files.py:51-83 | excluding on the way down is excluding prefix by prefix |
| SourceTree.EggInfoIsPruned | import_files.py:51-63 | a file in an egg-info directory is not excluded by itself and never visited |
| SourceTree.VisitsAllDistinct | import_files.py:104-118 | no path is visited twice |
| ScriptRules.EndsWithMeans | import_files.py:57-63 | a name ends with the suffix of a glob exactly if it is something followed by that suffix |
| ScriptRules.ShouldExcludeMeans | import_files.py:22-72 | should_exclude with the tables of the script: one of thirteen names anywhere in the path, an egg-info directory, or one of the seven kinds of file |
| ScriptRules.NoPrefixIsExcluded | import_files.py:51-83 | no prefix of a path is excluded exactly if no component has one of the names, no directory on the way is an egg-info one, and the last component is neither that nor an excluded file |
| ScriptRules.WantedMeans | import_files.py:22-118 | what the recursion is to bring in: what the source has and these names do not exclude |
| ScriptRules.AccountIsListed | import_files.py:176-199 | the lists of files, directories and skipped paths are exactly the new files, the new directories and the candidate files that stood there before, each once |
| MergeBooks.AccountsJoin | import_files.py:104-118 | the accounts of two parts of a run with different paths add up |
| MergeBooks.FailureAccounted | import_files.py:93-100 | a directory that cannot be made accounts for everything below it |
| MergeBooks.BooksBalance | import_files.py:176-199 | no list repeats a path, no path is in two lists, only visited paths are listed, and each visited path is listed, was a directory already, or is missing |
| MergeBooks.SecondRunIdle | import_files.py:80-131 | after a run without errors a second one changes nothing and skips every visited file |
| MergeBooks.MergeIsWanted | import_files.py:80-131 | old paths keep kind and content, new ones are wanted ones with the source's content, and errors are reported exactly when a wanted path is missing |
| MergeBooks.BlockedBefore | import_files.py:86-131 | what a run created stands in the way of nothing it visits later |
| MergeBooks.CompleteIsUnblocked | import_files.py:86-131 | a run that brings in all it visits met no file where it needed a directory |
| MergeBooks.BlockedIsClash | import_files.py:86-131 | a visited path has a destination file above it exactly when a wanted path has |
| ImportFiles.Importer.Mkdir | import_files.py:93-100 | a directory is made, or nothing changes, and then a file stands at the parent or the operation failed by itself and is counted |
| ImportFiles.Importer.CopyFile | import_files.py:122-131 | a file is copied, or nothing changes, and then a file stands at the parent or the operation failed by itself and is counted |
| ImportFiles.Importer.CopyOneFile | import_files.py:113-131 | one outcome of three, each with its list entry: there already, copied, failed |
| ImportFiles.Importer.EnsureDir | import_files.py:86-102 | one outcome of three for a directory |
| ImportFiles.Importer.CopyIfNotExists | import_files.py:74-131 | under every pattern of failures and clashes what was there is unchanged and the lists account for all that was visited; errors without a failing operation come from a file that stood above a visited path |
| ImportFiles.Importer.CopyEntries | import_files.py:104-118 | the same for all entries of a directory |
| ImportFiles.Importer.Run | import_files.py:176-199 | the same for a whole run, from empty lists |
| ImportFiles.ImportAll | import_files.py:153-199 | with the tables of the script, name by name: nothing overwritten; everything new is in the source, with its content, and not excluded at any depth; the lists are what was created and skipped; if no operation fails by itself, everything not excluded is there exactly when no file of the old destination stands above any of it |
| ErrorTable.DistinctIsDistinctIn | src/py_nspr_error.c:90-106 | whether codes repeat does not depend on the order of the table |
| ErrorTable.SortedCheckMeans | src/py_nspr_error.c:90-106 | the sorted table is strictly ascending above the minimum exactly when the table as written has distinct codes above it |
| ErrorTable.LookupIsLinear | src/py_nspr_error.c:111-134 | with distinct codes a correct search of any reordering is a scan of the table as written |
| ErrorTable.NsprErrors.Sort | src/py_nspr_error.c:51-60 | the table becomes a sorted permutation of itself |
| ErrorTable.NsprErrors.Init | src/py_nspr_error.c:81-109 | it succeeds exactly when all codes are distinct and above the 32-bit minimum |
| ErrorTable.NsprErrors.Lookup | src/py_nspr_error.c:111-134 | in a sorted table the search returns an entry with the code, and none exactly when there is none |
| ErrorTable.NsprErrors.LookupAfterInit | src/py_nspr_error.c:81-134 | after a successful check the search is a scan of the table as written |

## Left out

- Everything that only forwards to NSS or NSPR: SSL sockets, options, addresses, connect, bind, accept, callbacks.
- `accept_read` and `recv_from`: they bypass the read-ahead.
- `makefile_refs`: only a counter in front of close. A PR_Close that reports an error leaves the socket closed as well.
- Allocation failure, the overflow test of `read`, reference counts and the interpreter lock; lengths are unbounded integers.
- Streams that never end: the bytes the peer will deliver are a finite sequence, so every loop of the reads ends.
- The wait for data and its timeout; a timeout is one more way for PR_Recv to fail.
- Text that PR_Recv might leave behind the bytes it reports: the model leaves those array elements alone.
- `%`-style log arguments, keyword arguments, the level methods, `secure_log`, `log_exception_safely` with its unchecked context prefix, and tracebacks.
- Lower case of characters above ASCII other than the two whose lower case contains ASCII letters: no forbidden word can tell.
- Patterns outside the four used: the regular expression type has only the constructs they need, with repetition of single classes.
- AsciiAgreement: says nothing of messages with characters above ASCII, because the long s and the dotless i fold to ASCII letters in the password pattern but not in `lower`, so such a message can be PUBLIC and still be changed by the last stage. For PUBLIC messages of any characters PublicIsLeftAlone gives the exact condition.
- Symlinks, partially written files, directories that cannot be listed, printing, and the checks of main that its two directories exist; source and destination are disjoint.
- The implementation of qsort: a selection sort stands in its place, and only what its contract says is used.
- The messages that init_nspr_errors prints; at position 0 printing names the entry before the table.
- src/nss_context.py and src/deprecations.py: a flag and a dictionary lookup.
