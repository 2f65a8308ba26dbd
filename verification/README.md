# Verified models of Varin's desktop and extension core

A Dafny model of the parts of the repository whose correctness is a statement about every input,
every way of cutting a stream, or every interleaving of callers, together with proofs of those
statements. `dafny verify dfyconfig.toml` checks all of it.

| module | what it models |
|---|---|
| `Text`, `Sorting`, `Json` | trimming, splitting, joining, decimal numerals; filtering, the stable sort and keeping the first of each key; parsed JSON values |
| `RoutingKeys`, `RoutingDocument` | service routing rules: normalisation, identity keys (JSON string quoting, section 7 of RFC 8259), the uniqueness check |
| `RoutingResolver`, `RoutingPrecedence`, `RoutingOrder` | resolving one invocation, against a declarative account by rank classes; what is preferred, in terms of the selected dimensions; what the order of rules can change |
| `Framing`, `FramingHeaders` | Content-Length framing (Base Protocol, Header Part, of the Language Server Protocol 3.17) as the emitted language-server and debug-adapter runtimes do it |
| `EventLines` | the notification listener's line buffer |
| `ShellWords`, `SshCommand` | word splitting and quoting (section 2.2 of the POSIX Shell Command Language), the SSH command parser |
| `SshConfig` | the SSH config walk over a possibly cyclic include graph, and the merged host import |
| `SshHosts`, `SshRows`, `SshForwards` | saving SSH instances: the normaliser, the host rows, the default host |
| `ContextExpression`, `ContextEvaluation` | parsing, evaluating and collecting the keys of context expressions |
| `ThemeReferences`, `ThemeTokens` | following theme references and `var(--name)` tokens through graphs that may have cycles |
| `BrokerLifecycle`, `Teardown` | the broker's single-flight start and shutdown, and the once-only teardown before exit, as step machines over interleaved callers |
| `NotificationClaims` | the expiring claim table that suppresses duplicate notifications |
| `DesktopExec`, `DesktopLaws`, `DesktopRoundTrip` | the autostart entry writer and the desktop entry reader (section "The Exec key" of the Desktop Entry Specification) |

State that the program updates in place is a class (`Framing.FrameReader`, `EventLines.EventStream`,
`SshConfig.Reader`, `SshHosts.Settings`, `ContextEvaluation.KeySet`, `ContextExpression.IssueList`,
`NotificationClaims.ClaimTable`); its loops are loops. Each such method is proved against a function
of its inputs and the old state, and what that function is for is proved by lemmas about it. The two
lifecycle modules model asynchronous code: every stretch between two awaits is one action, and a run
is any sequence of enabled actions.

## What the proofs brought out

* Rule order: `peers[0]` is the only place where the order of a routing document's rules can show.
  It shows in status, provider or diagnostics exactly when the walk reaches a class whose rules
  agree on an absent provider and disagree on `allowFallback` (`OrderIrrelevantExactly`; concrete
  documents in `LenientFirst` and `StrictFirst`).
* Shell quoting: an empty word is quoted as two quotes and then lost by the splitter, so the round
  trip holds exactly when no word is empty (`QuotedWordsSplit`).
* SSH commands: the destination is the last token, trimmed after the test for a leading hyphen. So it
  starts with a hyphen if and only if that token starts with white space and a hyphen is the first
  character behind it (`HyphenExactly`; the smallest case is `HyphenDestination`). A parsed command
  written out again parses to itself exactly when this is not so (`CommandRoundTrip`).
* SSH config: a `Host` or `include` line contributes exactly its operands if and only if something
  follows the keyword; a bare keyword is taken as its own operand (`HostLine`, `IncludeLine`), so a
  bare `Host` line names a host called `Host` (`BareHost`).
* SSH hosts: rows are filtered by trimmed ids but found by stored ids, so a stored id that equals an
  instance's only after trimming leads to two rows that read alike (`StrayExample`), and nothing else
  does (`TrimmedIdsUniqueExactly`). Likewise the default host is compared as stored but read trimmed: it
  still reads as a dropped instance exactly when it did only after trimming (`TrimmedDefaultExactly`,
  `PaddedDefault`).
* Broker: while a shutdown that awaited a start is due to go on, another step may overtake it. No
  broker is ever disposed twice if and only if direct starts may not; restart timers may, because they
  start nothing without a broker (`DisposedOnceExactly`). A stored handshake always implies a current
  broker if and only if neither may (`HandshakeExactly`). Runs in which they do are `DisposedTwice`,
  `StrayByStart` and `StrayHandshake`. At present only the restart timer calls the start, so direct
  starts are something the code offers and nothing uses.
* Teardown: an exit can precede the teardown when an update has been requested
  (`UpdateExitsAtOnce`) or a quit prepared for one (`PreparedExitsAtOnce`), and when a teardown step
  throws (`ThrowingExitsEarly`). Those three kinds of step are exactly the ones that make it possible;
  an update's own call of the teardown does not (`SafeExactly`). Preparing a quit for an update is an
  option of `prepareForQuit` that no caller uses at present.
* Claims: an absent claim is read as time zero, so during the first 5000 ms of the clock's epoch
  every keyed notification is refused (`DecisionsFollowHistory`).
* Desktop values: the escapes are replaced one kind after the other, so two backslashes stand for one
  unless one of the letters s, n, t, r follows (`UnescapeDouble`); then the second backslash and the
  letter are taken together (`UnescapeTriple`).
* Autostart: a path without a backslash comes back exactly when it has no newline and is either
  quoted by the writer or free of single quotes and white space (`ProgramRecovered`). A non-breaking
  space, for instance, is not quoted by the writer but separates words for the reader.

## Model

| member | source | states |
|---|---|---|
| RoutingKeys.QuoteUnique | packages/extension-contract/src/service-routing.ts:136-139 | Text that starts with a quoted string can be read in only one way: both the string and what follows it are determined. |
| RoutingKeys.QuoteDenotes | packages/extension-contract/src/service-routing.ts:136-139 | Read as a JSON string (section 7 of RFC 8259), a quoted string denotes exactly the string, and the text behind it is what follows. |
| RoutingKeys.PlainQuote | packages/extension-contract/src/service-routing.ts:136-139 | Text without quotes, backslashes and control characters is quoted as it stands. |
| RoutingKeys.ControlQuote | packages/extension-contract/src/service-routing.ts:136-139 | Control characters without a short escape are written with four small hexadecimal digits. |
| RoutingKeys.ScopeKeyInjective | packages/extension-contract/src/service-routing.ts:136-139 | Two scopes with non-empty values and the same scope key are equal, whatever ampersands, equals signs or quotes their values contain. |
| RoutingDocument.ContextParses | packages/extension-contract/src/service-routing.ts:109-121 | A value parses to a given scope if and only if it is an object whose fields read, after trimming, as exactly that scope, and the scope is not empty where it may not be. |
| RoutingDocument.ScopeReparses | packages/extension-contract/src/service-routing.ts:109-121 | A normal scope written as an object parses back to itself. |
| RoutingDocument.ParsedRule | packages/extension-contract/src/service-routing.ts:123-134 | An accepted rule is in normal form: trimmed non-empty texts, a well-formed service id, a safe positive version, at least one dimension. |
| RoutingDocument.RuleParses | packages/extension-contract/src/service-routing.ts:123-134 | A value parses to a rule if and only if each field of the rule is what the property of its name reads as. |
| RoutingDocument.RuleKeyInjective | packages/extension-contract/src/service-routing.ts:141-143 | Two normal rules have the same key if and only if they agree in service, version and scope. |
| RoutingDocument.KeysDistinct | packages/extension-contract/src/service-routing.ts:153-154 | The set-size comparison passes if and only if no two rules of the list have one identity. |
| RoutingDocument.ParsedDocument | packages/extension-contract/src/service-routing.ts:145-163 | Every accepted document holds only normal rules with pairwise different identities. |
| RoutingDocument.DocumentParses | packages/extension-contract/src/service-routing.ts:145-163 | A value parses to a document if and only if its properties read as that document, rule by rule, and no two rules share an identity. |
| RoutingDocument.RevisionParses | packages/extension-contract/src/service-routing.ts:102-107 | A number is accepted, as itself, if and only if it is a safe integer from the least one allowed on. |
| RoutingDocument.PlainServiceId | packages/extension-contract/src/service-routing.ts:70-70 | A text of small letters and digits is a service id unless it is empty. |
| RoutingDocument.JoinedServiceId | packages/extension-contract/src/service-routing.ts:70-70 | Two texts with a dot, underscore or hyphen between them are a service id if and only if both are. |
| RoutingDocument.ServiceIdCharacters | packages/extension-contract/src/service-routing.ts:70-70 | No other character stands in a service id. |
| RoutingResolver.HighestIsMaximum | packages/extension-contract/src/service-routing.ts:222-231 | The first part of a rank is the greatest place of any selected dimension in the field list, and -1 if there is none. |
| RoutingResolver.Precedence | packages/extension-contract/src/service-routing.ts:222-231 | The loop over the field list yields that maximum and the number of selected dimensions. |
| RoutingPrecedence.FieldOrder | packages/extension-contract/src/service-routing.ts:71-83 | The dimensions by name, from the least to the most specific. |
| RoutingPrecedence.AboveExactly | packages/extension-contract/src/service-routing.ts:222-231 | One scope outranks another if and only if it selects a dimension more specific than all the other selects, or neither goes further and it selects more dimensions. |
| RoutingPrecedence.MatchesExactly | packages/extension-contract/src/service-routing.ts:233-236 | A rule's scope matches a context if and only if everything it says, the context says too. |
| RoutingResolver.TakePeers | packages/extension-contract/src/service-routing.ts:266-274 | The inner loop takes the longest run of equally ranked rules. |
| Sorting.SortSorted | packages/extension-contract/src/service-routing.ts:257-263 | The sort puts every list in order, for any total preorder. |
| Sorting.SortStable | packages/extension-contract/src/service-routing.ts:257-263 | Elements that the order does not tell apart keep their relative places. |
| RoutingResolver.Walk | packages/extension-contract/src/service-routing.ts:257-327 | The sort-and-group loop refines the declarative account: classes are passed over, from the highest rank down, exactly while they agree on an absent provider and their first rule in document order allows fallback; the first other class decides, and if there is none the number of candidates does. |
| RoutingResolver.Resolve | packages/extension-contract/src/service-routing.ts:245-327 | The whole call: it fails exactly when one of its four inputs does not parse, and otherwise gives the account's resolution for the rules that apply and the usable candidates. |
| RoutingPrecedence.MatchedRule | packages/extension-contract/src/service-routing.ts:257-301 | A result that names a rule names an applicable one; all equally specific ones select the same provider, all more specific ones an absent provider; resolved, it gives the first candidate with the rule's key, unavailable, there is none and the rule forbids fallback. |
| RoutingPrecedence.NoMatchedRule | packages/extension-contract/src/service-routing.ts:302-327 | A result that names neither a rule nor a conflict: every applicable rule selects an absent provider, and one candidate resolves, several are ambiguous, none is unavailable. |
| RoutingPrecedence.ProviderIsFirst | packages/extension-contract/src/service-routing.ts:286-286 | The provider of a key is the first candidate with that key. |
| RoutingPrecedence.UsableExactly | packages/extension-contract/src/service-routing.ts:256-256 | Exactly the candidates whose id and key are not blank are considered. |
| RoutingPrecedence.AbsentContext | packages/extension-contract/src/service-routing.ts:253-253 | An absent context is an empty one, which no rule with a dimension matches. |
| RoutingResolver.SpecifiedUnique | packages/extension-contract/src/service-routing.ts:257-327 | The account admits at most one resolution, so it determines status, provider, matched rule and diagnostics. |
| RoutingOrder.SpecifiedExists | packages/extension-contract/src/service-routing.ts:257-327 | The account admits a resolution for every list of rules and candidates. |
| RoutingResolver.ResolvedDiagnostics | packages/extension-contract/src/service-routing.ts:285-327 | A resolved result carries exactly one diagnostic for each class above the deciding one, each a fallback from an absent provider. |
| RoutingOrder.ExtensionOutranks | packages/extension-contract/src/service-routing.ts:222-231 | A scope that selects strictly more dimensions than another always outranks it. |
| RoutingOrder.NeverBothMatch | packages/extension-contract/src/service-routing.ts:145-154 | In an accepted document, two rules for one service and version with the same dimensions never both match one context. |
| RoutingOrder.ConflictNeedsDifferentDimensions | packages/extension-contract/src/service-routing.ts:275-284 | For an accepted document, a resolution that reports a scope conflict exhibits two applicable rules of equal rank for different providers, whose dimension sets do not contain one another. |
| RoutingOrder.ReportPermuted | packages/extension-contract/src/service-routing.ts:257-301 | If no reached class is torn on fallback, any reordering of the applicable rules gives the same status, provider and diagnostics. |
| RoutingOrder.TornShows | packages/extension-contract/src/service-routing.ts:285-301 | If a reached class is torn, moving one rule of the document to the front changes the report. |
| RoutingOrder.OrderIrrelevantExactly | packages/extension-contract/src/service-routing.ts:257-301 | The report is the same for every order of the document's rules if and only if no reached class is torn. |
| RoutingOrder.DocumentPermuted | packages/extension-contract/src/service-routing.ts:257-301 | It is enough that equally ranked applicable rules for one provider agree on fallback. |
| RoutingOrder.LenientFirst | packages/extension-contract/src/service-routing.ts:285-301 | A valid document of two rules that disagree on fallback and both apply, the lenient one first: resolved to the only candidate. |
| RoutingOrder.StrictFirst | packages/extension-contract/src/service-routing.ts:285-301 | The same two rules, the strict one first, again a valid document: unavailable. |
| Framing.HeaderEnd | packages/extension-cli/src/templates.ts:176-177 | Finds the first blank-line separator, or shows there is none. |
| Framing.NextPass | packages/extension-cli/src/templates.ts:175-185 | Every pass of the loop that does not stop strictly shrinks the buffer. |
| Framing.FrameReader.OnData | packages/extension-cli/src/templates.ts:173-187 | One chunk hands over exactly the bodies that draining old buffer and chunk yields, and leaves its rest. |
| Framing.FrameReader.Receive | packages/extension-cli/src/templates.ts:173-187 | For arbitrary bytes in any chunks, the bodies and the final buffer depend only on the concatenation. |
| Framing.PassStable | packages/extension-cli/src/templates.ts:175-185 | A pass that consumes something consumes the same when more bytes follow. |
| Framing.DrainConcat | packages/extension-cli/src/templates.ts:173-187 | Draining a first part and then its rest with more is draining the whole. |
| Framing.FeedIsDrain | packages/extension-cli/src/templates.ts:173-187 | Feeding chunk by chunk equals draining the concatenation at once. |
| Framing.DrainBlock | packages/extension-cli/src/templates.ts:175-185 | Any header that announces its body's length delivers exactly that body and goes on behind it. |
| Framing.DrainJunk | packages/extension-cli/src/templates.ts:179-179 | A header without a length is dropped with its separator, and nothing else is. |
| FramingHeaders.DrainLines | packages/extension-cli/src/templates.ts:175-185 | A header part of any field lines, with the length announced in one of them, in any letter case, with any white space and any number of digits, and the name in none before it, hands over the body and goes on behind it. |
| FramingHeaders.DrainWithoutLength | packages/extension-cli/src/templates.ts:178-179 | A header part in none of whose lines the name stands is dropped with its blank line, and nothing else is. |
| FramingHeaders.MatchExactly | packages/extension-cli/src/templates.ts:178-178 | A length is read at a place if and only if the name in any letter case, white space and digits of that value stand there. |
| FramingHeaders.AnnouncedExactly | packages/extension-cli/src/templates.ts:178-178 | A header part announces a length if and only if that is the first announced anywhere in it. |
| FramingHeaders.SpaceWidthExactly | packages/extension-cli/src/templates.ts:178-178 | The bytes of a character in UTF-8 are skipped if and only if the character is white space. |
| Framing.HeaderReadsBack | packages/extension-cli/src/templates.ts:114-120 | The length in a sent header is read back as the number that was written. |
| Framing.DrainStream | packages/extension-cli/src/templates.ts:114-120 | Draining any list of sent frames gives the payloads in order and an empty rest. |
| Framing.FramesRoundTrip | packages/extension-cli/src/templates.ts:251-265 | For every list of payloads and every way of cutting their frames into chunks, the loop hands over exactly those payloads in order and ends with an empty buffer. |
| EventLines.EventStream.OnData | packages/electron/notification-listener.ts:248-261 | One chunk handles the payloads of the lines it completes and keeps the unterminated tail. |
| EventLines.EventStream.Receive | packages/electron/notification-listener.ts:248-261 | For every chunking, the payloads are the trimmed remainders of the terminated `data: ` lines of the whole text, in order, and the buffer is its unterminated tail. |
| EventLines.TextGrows | packages/electron/notification-listener.ts:248-261 | Splitting the tail with the next chunk continues the splitting of the whole text. |
| EventLines.EventsRoundTrip | packages/electron/notification-listener.ts:248-261 | Writing trimmed one-line payloads as events and reading them gives them back, with nothing left over. |
| EventLines.ReadsLines | packages/electron/notification-listener.ts:248-261 | Of any lines, those with data give exactly their trimmed data, in order, all others give nothing, and an unfinished line is kept. |
| ShellWords.SplitShellWords | packages/electron/ssh-manager.ts:178-215 | The index loop computes the recursive word scanner, with its unclosed-quote error. |
| ShellWords.ReadsWrittenWords | packages/electron/ssh-manager.ts:178-215 | Any words written with bare characters, escapes, single and double quotes, in any mixture, are read as what they mean, the empty ones left out. |
| ShellWords.WordBreak | packages/electron/ssh-manager.ts:178-215 | White space of any kind ends a word. |
| ShellWords.TrailingBackslash | packages/electron/ssh-manager.ts:187-191 | A backslash at the very end stands for nothing. |
| ShellWords.OpenQuotation | packages/electron/ssh-manager.ts:209-211 | A single or double quotation that is not closed is an error. |
| ShellWords.EveryInput | packages/electron/ssh-manager.ts:178-215 | Every input is a written word with one of those endings, so the laws leave none out. |
| ShellWords.QuotedWordsSplit | packages/electron/ssh-manager.ts:131-131 | Splitting the space-joined quotes of any words gives back the non-empty ones, hence exactly the list if and only if no word is empty. |
| SshCommand.MatchValueOption | packages/electron/ssh-manager.ts:268-293 | The loop over the value options computes the first match: separate or attached value, forbidden `-o` values, missing value. |
| SshCommand.OptionOrderIrrelevant | packages/electron/ssh-manager.ts:268-293 | Any reordering or repetition of the value-option list gives the same outcome for every token. |
| SshCommand.ParseOptions | packages/electron/ssh-manager.ts:243-305 | The outer loop with its mutable index, args and destination computes the recursive parser, errors included. |
| SshCommand.ParseSshCommand | packages/electron/ssh-manager.ts:226-305 | The whole call on text, with the optional leading `ssh`. |
| SshCommand.GrammarExact | packages/electron/ssh-manager.ts:226-305 | A token list is accepted with a result if and only if the grammar (one `ssh` if it comes first, then flags, attached or separate permitted values, skipped blanks, then one destination) derives that result from it; a lone `ssh` is refused, never taken as a destination. |
| SshCommand.ForbiddenExactly | packages/electron/ssh-manager.ts:221-224 | An `-o` value is forbidden if and only if, trimmed, it starts with one of five names in any letter case. |
| SshCommand.OptionShapes | packages/electron/ssh-manager.ts:217-219 | Which tokens are flags, take a value or are refused by name, by their letters; no letter is of two kinds. |
| SshCommand.AcceptedArguments | packages/electron/ssh-manager.ts:226-305 | The arguments of an accepted command are permitted options, and no `-o` value among them, attached or separate, starts with a refused name. |
| SshCommand.RefusalExactly | packages/electron/ssh-manager.ts:246-305 | After permitted items, a missing destination, a token behind the destination and a token that starts no permitted item are refused, each with its own message. |
| SshCommand.EveryCommand | packages/electron/ssh-manager.ts:246-305 | Every token list is permitted items followed by nothing, a destination, or a token that starts no permitted item. |
| SshCommand.NothingLost | packages/electron/ssh-manager.ts:226-305 | If no token is empty or has surrounding white space, the tokens are exactly the leading `ssh`, if any, the args and the destination. |
| SshCommand.CommandRoundTrip | packages/electron/ssh-manager.ts:226-305 | A parsed command, quoted and joined, parses to itself if and only if its destination does not start with a hyphen, that is, if and only if the last word of the input does not trim to a text that does. |
| SshCommand.HyphenExactly | packages/electron/ssh-manager.ts:243-305 | On acceptance the destination is the last token, trimmed, and that token starts with no hyphen; the destination starts with one if and only if the token starts with white space and trims to a text that does. |
| SshCommand.HyphenDestination | packages/electron/ssh-manager.ts:246-253 | The witness: a quoted space and hyphen give a destination that starts with a hyphen. |
| SshConfig.Reader.ParseCandidates | packages/electron/ssh-manager.ts:771-816 | The recursive walk over the lines of the files, with the shared visited set, computes the functional walk over what the files contribute: same candidates, same visited set, on every finite include graph. |
| SshConfig.WalkVisitsReachable | packages/electron/ssh-manager.ts:771-816 | A file is visited if and only if it exists and an include chain of existing files leads to it from the root. |
| SshConfig.WalkCollectsOnce | packages/electron/ssh-manager.ts:771-816 | The candidates are, as a bag, the host tokens of the visited files, each file's exactly once. |
| SshConfig.CollectedByText | packages/electron/ssh-manager.ts:771-816 | From the text of the files: a candidate is collected if and only if some reachable file has a `Host` line with its token, which neither starts with an exclamation mark nor is the catch-all. |
| Text.FieldsOfJoin | packages/electron/ssh-manager.ts:804-804 | Host tokens joined by blanks are split into the same tokens. |
| Text.FieldsBreak | packages/electron/ssh-manager.ts:804-804 | White space of any kind ends a token, and more of it adds none. |
| SshConfig.HostLine | packages/electron/ssh-manager.ts:801-804 | For every raw line, comment cut off: it is a `Host` line if and only if it has the keyword, it contributes exactly its operands if and only if something follows the keyword, and otherwise itself. |
| SshConfig.HostByWords | packages/electron/ssh-manager.ts:780-804 | By its words, comment cut off: a line is a `Host` line if and only if its first word is that, in any letter case, and its tokens are the other words, or that one if it is alone. |
| SshConfig.IncludeLine | packages/electron/ssh-manager.ts:784-798 | The same for `include`: exactly the operands are included if and only if something follows the keyword; a bare keyword includes the file of that name. |
| SshConfig.IncludeByWords | packages/electron/ssh-manager.ts:780-798 | The same for an include line, its tokens being the other words if the line has no quotes and backslashes. |
| SshConfig.IncludesByText | packages/electron/ssh-manager.ts:784-798 | One existing file includes another if and only if one of its lines is an include line with a token that expands to the other. |
| SshConfig.BareHost | packages/electron/ssh-manager.ts:801-804 | The witness: a bare `Host` line yields the host `Host`. |
| SshConfig.ImportHosts | packages/electron/ssh-manager.ts:818-827 | The import computes the sorted first occurrences of user then global candidates. |
| Sorting.KeepFirstShape | packages/electron/ssh-manager.ts:823-826 | A filter with a shared set of keys keeps exactly the first element of every key; the keys of what is kept are distinct. |
| SshConfig.ImportedHosts | packages/electron/ssh-manager.ts:818-827 | The imported hosts are sorted and distinct, and a candidate is among them if and only if it is the first with its host. |
| SshConfig.UserWins | packages/electron/ssh-manager.ts:818-827 | A host that the user's own config names is imported from there. |
| SshHosts.SanitizedInstances | packages/electron/ssh-manager.ts:908-963 | Every instance that is saved has a trimmed, non-empty id that is not the local host's. |
| SshRows.SanitizeExactly | packages/electron/ssh-manager.ts:908-963 | An instance is accepted, and as which, if and only if its id, command and nickname read so and the command parses. |
| SshRows.SanitizeErrors | packages/electron/ssh-manager.ts:908-921 | A refused instance is refused for its id first, then for its command. |
| SshRows.SanitizeAllExactly | packages/electron/ssh-manager.ts:836-836 | A list is accepted as its instances, in order, or refused for the first that is refused. |
| SshRows.LabelExactly | packages/electron/ssh-manager.ts:854-854 | The title of a row is the nickname, or else the destination of the command. |
| SshHosts.Settings.SetInstances | packages/electron/ssh-manager.ts:834-870 | The new instances, rows and default from any old settings; on an invalid instance nothing changes. |
| SshRows.RowsKept | packages/electron/ssh-manager.ts:846-851 | A row is kept if and only if its trimmed id is neither empty nor the local host's and, if it was an instance's, still is. |
| SshRows.RowsDescribed | packages/electron/ssh-manager.ts:853-863 | Row by row: each stays in its place with everything it holds; the first with an instance's id gets the last title for that id and an address if it had none; instances without a row get one, in order. |
| SshHosts.EveryInstanceHasRow | packages/electron/ssh-manager.ts:846-866 | Each saved instance has a host row with the last title given to its id and a non-empty address. |
| SshHosts.NoDroppedRow | packages/electron/ssh-manager.ts:834-870 | No row of a dropped instance, empty id or local host remains. |
| SshHosts.OthersSurvive | packages/electron/ssh-manager.ts:834-870 | All other rows survive unchanged and in order. |
| SshHosts.IdsStayUnique | packages/electron/ssh-manager.ts:834-870 | Host rows with pairwise different stored ids stay so. |
| SshHosts.TrimmedIdsUniqueExactly | packages/electron/ssh-manager.ts:847-864 | For ids as the filter reads them, trimmed: the saved rows have distinct ids if and only if the kept rows do and none of those has an instance's id only after trimming; distinct hosts give distinct kept rows. |
| SshHosts.StrayExample | packages/electron/ssh-manager.ts:847-864 | The failing input: a stored id with a leading space, and an instance with the id without it, give two rows that read alike. |
| SshHosts.DefaultNotDropped | packages/electron/ssh-manager.ts:865-867 | As stored, the default never names a dropped instance, and is either kept or set to the local host. |
| SshHosts.TrimmedDefaultExactly | packages/electron/ssh-manager.ts:865-867 | As it is read, trimmed, the default names a dropped instance after the call if and only if it did before and only after trimming. |
| SshHosts.PaddedDefault | packages/electron/ssh-manager.ts:865-867 | The failing input: a default with a leading space stays, though the instance it reads as is dropped. |
| SshHosts.RepeatChangesNothing | packages/electron/ssh-manager.ts:834-870 | Saving the same instances again changes neither rows nor default. |
| SshForwards.SanitizeForwards | packages/electron/ssh-manager.ts:923-932 | The map, and the filter with the shared seen set, compute the first usable forward of each id. |
| SshForwards.SanitizedIsNormal | packages/electron/ssh-manager.ts:882-906 | An accepted forward is in normal form: usable ports, allowed bind host, both ends given unless dynamic. |
| SshForwards.ForwardExactly | packages/electron/ssh-manager.ts:882-906 | A forward is accepted if and only if it has an id and the ports its kind needs, and what becomes of each field. |
| SshForwards.SanitizeForwardAgain | packages/electron/ssh-manager.ts:882-906 | Sanitising a saved forward again gives the same forward. |
| SshForwards.KeptForwards | packages/electron/ssh-manager.ts:923-932 | A forward is kept if and only if it is the first usable one with its id; kept forwards are normal and have distinct ids, and no usable id is left out. |
| ContextExpression.CheckNoExtraFields | packages/extension-contract/src/context-expression.ts:22-28 | Appends one issue for each unexpected field, in the order of the object's keys, and nothing else. |
| ContextExpression.ParseInto | packages/extension-contract/src/context-expression.ts:41-98 | The recursive parser with the shared issue list returns the node of the functional parser and appends exactly its issues, in order. |
| ContextExpression.IssuePlaces | packages/extension-contract/src/context-expression.ts:41-98 | Issues name the place in a list, or under a negation, where something is not an object. |
| ContextExpression.IssueTexts | packages/extension-contract/src/context-expression.ts:41-98 | The other issues, each with its place and what was expected there. |
| ContextExpression.ParseSound | packages/extension-contract/src/context-expression.ts:41-98 | If a value gives no issue, the result is well formed and prints to exactly that value: no field lost or invented, no placeholder left. |
| ContextExpression.ParseComplete | packages/extension-contract/src/context-expression.ts:41-98 | Every well-formed expression, printed and parsed, comes back without an issue. |
| ContextExpression.ParseContextExpression | packages/extension-contract/src/context-expression.ts:34-39 | Parsing succeeds with an expression if and only if it is well formed and prints to the input; a failure reports all issues, at least one, in order. |
| ContextEvaluation.KeySet.Collect | packages/extension-contract/src/context-expression.ts:133-154 | The recursive collector adds to the shared set what the functional collector does, in order. |
| ContextEvaluation.CollectKeys | packages/extension-contract/src/context-expression.ts:133-154 | The collected keys are exactly the keys occurring in the expression, without duplicates. |
| ContextEvaluation.EvaluateAgrees | packages/extension-contract/src/context-expression.ts:111-131 | Contexts that agree in presence and value on the keys of an expression evaluate it alike. |
| ContextEvaluation.CollectedKeysSuffice | packages/extension-contract/src/context-expression.ts:111-154 | The collected keys are enough for that. |
| ContextEvaluation.LeafLaws | packages/extension-contract/src/context-expression.ts:111-123 | A key is defined exactly while it has a value, and equals exactly the value it has. |
| ContextEvaluation.GroupBase | packages/extension-contract/src/context-expression.ts:124-127 | An empty `all` holds, an empty `any` does not, and a group of one part is that part. |
| ContextEvaluation.GroupConcat | packages/extension-contract/src/context-expression.ts:124-127 | Two groups put together hold if and only if both do (`all`), or one does (`any`). |
| ContextEvaluation.NegationLaws | packages/extension-contract/src/context-expression.ts:111-131 | Negation turns one kind of group into the other. |
| ThemeReferences.ResolveByShape | scripts/port-opencode-theme.ts:339-378 | A colour is returned, an unknown name reported or a cycle reported if and only if the chain ends in that literal, ends at that unknown name or never ends; a reported cycle names a member of one. |
| ThemeReferences.CycleNeverEnds | scripts/port-opencode-theme.ts:339-378 | A chain that comes back to a name can be followed any number of steps. |
| ThemeReferences.ResolveInMode | scripts/port-opencode-theme.ts:339-378 | Resolving in a mode is resolving the theme in which every value is replaced by its side for that mode. |
| ThemeReferences.LiteralValues | scripts/port-opencode-theme.ts:345-359 | Texts that start with a number sign or `rgb` are colours as they stand, trimmed; `transparent` and `none` are one colour, numbers another. |
| ThemeReferences.NameValues | scripts/port-opencode-theme.ts:361-377 | A name resolves as what it stands for, a definition before a theme entry; a name that stands for nothing is unknown. |
| ThemeReferences.ResolveTheme | scripts/port-opencode-theme.ts:380-395 | A theme resolves if and only if every colour's chain ends in a literal, to exactly those literals; otherwise the error is that of the first failing entry. |
| ThemeTokens.MaterializeTokens | scripts/port-opencode-theme.ts:773-779 | The loop fills every key with its resolved value. |
| ThemeTokens.MaterializedMeaning | scripts/port-opencode-theme.ts:759-771 | A token becomes a value if and only if that is the first value on its trail that leads nowhere or back to a name already met. |
| ThemeTokens.TokenKeyExactly | scripts/port-opencode-theme.ts:760-763 | A value refers to a name if and only if, trimmed, it is `var(--` in any letter case, the name and a closing parenthesis. |
| ThemeTokens.OneStep | scripts/port-opencode-theme.ts:759-779 | A token that is no reference, or refers to a missing or empty one, stays; one that refers to a plain token becomes it. |
| ThemeTokens.CycleMembersStay | scripts/port-opencode-theme.ts:759-779 | Tokens on a cycle keep their own values. |
| ThemeTokens.MaterializeIdempotent | scripts/port-opencode-theme.ts:759-779 | Materializing twice is materializing once, with cycles, tails, missing names and empty tokens. |
| BrokerLifecycle.SingleFlightStep | packages/electron/main.ts:463-522 | Each step of start, shutdown and worker exit keeps: one warmup at most in flight, every broker ever created current or handed to dispose. |
| BrokerLifecycle.AlwaysSingleFlight | packages/electron/main.ts:463-522 | The same in every state of every run, in any order of resumption. |
| BrokerLifecycle.EnsureIsIdempotent | packages/electron/main.ts:463-465 | A start while one is in flight, or when the broker is ready, changes nothing. |
| BrokerLifecycle.EnsureWarms | packages/electron/main.ts:463-481 | Any other start warms up the current broker, and makes one if and only if there is none. |
| BrokerLifecycle.RestartAfterExit | packages/electron/main.ts:440-449 | When the catalog worker exits, its timer restarts the broker that is there, and does nothing if the application quits. |
| BrokerLifecycle.FailureClears | packages/electron/main.ts:493-500 | A warmup that fails leaves no handshake, and disposes the broker if and only if its start made it. |
| BrokerLifecycle.ShutdownDisposes | packages/electron/main.ts:505-522 | A shutdown with no start in flight disposes the broker there was and leaves none. |
| BrokerLifecycle.DisposedOnceStep | packages/electron/main.ts:440-522 | Each step, timers at any time included, keeps that no broker is disposed twice, provided a direct start waits for shutdowns that are due to go on. |
| BrokerLifecycle.AlwaysDisposedOnce | packages/electron/main.ts:440-522 | The same in every state of every run in which direct starts do not overtake. |
| BrokerLifecycle.HandshakeStep | packages/electron/main.ts:440-522 | Each step keeps that a handshake implies a current broker, provided direct starts and timers wait for shutdowns that are due to go on. |
| BrokerLifecycle.AlwaysOwned | packages/electron/main.ts:440-522 | The same in every state of every run in which neither overtakes. |
| BrokerLifecycle.DisposedOnceExactly | packages/electron/main.ts:440-522 | No run disposes a broker twice if and only if direct starts may not overtake a shutdown that is due to go on; whether timers may does not matter. |
| BrokerLifecycle.HandshakeExactly | packages/electron/main.ts:440-522 | In every run a handshake implies a current broker if and only if neither direct starts nor timers may overtake. |
| BrokerLifecycle.DisposedTwice | packages/electron/main.ts:463-522 | Where direct starts may overtake, a run disposes a broker twice. |
| BrokerLifecycle.StrayByStart | packages/electron/main.ts:463-522 | Where direct starts may overtake, a run stores a handshake with no broker. |
| BrokerLifecycle.StrayHandshake | packages/electron/main.ts:440-522 | Where timers may overtake, a run stores a handshake with no broker. |
| Teardown.StartsOnceStep | packages/electron/main.ts:595-622 | Each step of quit, signal, restart and update callers keeps that the teardown body has started at most once. |
| Teardown.BodyStartsAtMostOnce | packages/electron/main.ts:595-622 | The same in every state of every run. |
| Teardown.QuitTearsDown | packages/electron/main.ts:639-712 | A confirmed quit, even during an update, starts the teardown if none has been started. |
| Teardown.UpdateTearsDown | packages/electron/main.ts:595-622 | An update's own call tears down although the update flag is set. |
| Teardown.SignalDuringUpdate | packages/electron/main.ts:595-622 | A signal during an update waits for nothing and stops nothing. |
| Teardown.ConfirmedExit | packages/electron/main.ts:5608-5627 | A quit request exits, outside an update, if and only if the quit is confirmed and the teardown over. |
| Teardown.AgainNothing | packages/electron/main.ts:639-712 | A second quit, or a second signal, changes nothing. |
| Teardown.OnlySomeExit | packages/electron/main.ts:595-622 | When the body throws, only signal handlers and a failed startup go on to exit. |
| Teardown.BodyCompletes | packages/electron/main.ts:595-622 | The body stops the server, then the Pi runtime and the listener, then SSH, and only then is complete. |
| Teardown.CalmStep | packages/electron/main.ts:639-712 | Any step but setting the update flag and throwing keeps that completion and exit come after all four stops; an update's own call of the teardown included. |
| Teardown.CalmRun | packages/electron/main.ts:595-712 | The same in every state of every run of such steps. |
| Teardown.ExitAfterTeardown | packages/electron/main.ts:5608-5627 | In every such run that has exited, server, Pi runtime, listener and SSH have all been stopped, by one teardown. |
| Teardown.UpdateExitsAtOnce | packages/electron/main.ts:5608-5627 | With an update requested, a run exits with nothing stopped. |
| Teardown.PreparedExitsAtOnce | packages/electron/main.ts:5608-5627 | With a quit prepared for an update, a run exits with nothing stopped. |
| Teardown.ThrowingExitsEarly | packages/electron/main.ts:595-622 | With a throwing teardown step, a run exits with nothing stopped. |
| Teardown.SafeExactly | packages/electron/main.ts:595-712 | For every set of update and failure steps admitted beside all others: no run exits before everything is stopped, if and only if the set contains neither an update request, nor a preparation for one, nor a throwing step. |
| NotificationClaims.ClaimTable.Claim | packages/electron/main.ts:1510-1540 | One call decides and changes the table as the step function does, from any table. |
| NotificationClaims.TagIsKey | packages/electron/main.ts:1514-1516 | A tag that is not blank is the key, trimmed, whatever else the payload says. |
| NotificationClaims.KeyOfFields | packages/electron/main.ts:1517-1520 | Without a tag the key is session, kind, title and body, in that order, trimmed, the blank ones left out. |
| NotificationClaims.NoKeyExactly | packages/electron/main.ts:1514-1520 | Only a payload with nothing in any of its fields has no key. |
| NotificationClaims.KeylessAccepted | packages/electron/main.ts:1523-1525 | A call without a key is always let through. |
| NotificationClaims.KeylessInvisible | packages/electron/main.ts:1523-1525 | Calls without a key leave the table as if they had not been made. |
| NotificationClaims.AlwaysRemembers | packages/electron/main.ts:1522-1540 | After every run, the table holds for each key its last acceptance, unless that is more than 5000 ms old. |
| NotificationClaims.DecisionsFollowHistory | packages/electron/main.ts:1522-1540 | On a non-decreasing clock, a keyed call is rejected if and only if the clock is below 5000 ms or the same key was accepted less than 5000 ms earlier. |
| NotificationClaims.PurgingInvisible | packages/electron/main.ts:1522-1540 | Purging expired claims changes no decision of any run. |
| NotificationClaims.NoStaleClaim | packages/electron/main.ts:1522-1540 | After a keyed call no stored claim is older than 5000 ms. |
| DesktopExec.ParseDesktopValues | packages/electron/linux-app-discovery.ts:101-119 | The loop over lines with its current group computes the line-by-line reading. |
| DesktopExec.ParseExecCommand | packages/electron/linux-app-discovery.ts:187-223 | The character loop with quote and escape flags computes the recursive scanner. |
| DesktopExec.RenderArguments | packages/electron/linux-app-discovery.ts:225-246 | The loop replaces field codes in every argument and reports whether the target was inserted. |
| DesktopExec.BuildCommandFromDesktopExec | packages/electron/linux-app-discovery.ts:225-246 | The whole command, with the target appended where no field code took it. |
| DesktopLaws.ReadsArgument | packages/electron/linux-app-discovery.ts:187-223 | An argument written in any mixture of bare, backslashed and quoted pieces is read as what it means, and white space of any kind ends it. |
| DesktopLaws.ReadsUnfinished | packages/electron/linux-app-discovery.ts:187-223 | A lone backslash at the end stands for itself, and an open quotation ends with the text. |
| DesktopLaws.RenderText | packages/electron/linux-app-discovery.ts:229-240 | Text before a field code is taken as it is. |
| DesktopLaws.RenderCode | packages/electron/linux-app-discovery.ts:229-240 | The codes f, F, u, U stand for the target and count as its insertion, c for the name, k for the entry's file, two percent signs for one, all other letters for nothing. |
| DesktopLaws.RenderPercent | packages/electron/linux-app-discovery.ts:229-240 | A percent sign that starts no field code stays. |
| DesktopLaws.StripPlain | packages/electron/linux-app-discovery.ts:78-84 | Without percent signs and carets, stripping leaves the words with single spaces between them. |
| DesktopLaws.StripCode | packages/electron/linux-app-discovery.ts:78-84 | A field code between such texts disappears. |
| DesktopLaws.StripPercent | packages/electron/linux-app-discovery.ts:78-84 | Two percent signs between such texts become one. |
| DesktopLaws.UnescapeOne | packages/electron/linux-app-discovery.ts:65-70 | A backslash with s, n, t or r stands for one character; with any other character both stay. |
| DesktopLaws.UnescapeDouble | packages/electron/linux-app-discovery.ts:65-70 | Two backslashes stand for one unless one of those letters follows. |
| DesktopLaws.UnescapeTriple | packages/electron/linux-app-discovery.ts:65-70 | If one does, the second backslash and the letter are taken together and the first backslash stays. |
| DesktopLaws.LinesPassedOver | packages/electron/linux-app-discovery.ts:101-119 | Comments, empty lines, other groups, repeated keys and lines without an assignment add nothing. |
| DesktopLaws.LocalizedPassedOver | packages/electron/linux-app-discovery.ts:101-119 | Keys for other languages add nothing. |
| DesktopLaws.HeaderOpens | packages/electron/linux-app-discovery.ts:101-119 | A header line opens its group. |
| DesktopLaws.EntryExactly | packages/electron/linux-app-discovery.ts:121-138 | Which values make an entry, and which entry they make. |
| DesktopLaws.QuotingExactly | packages/electron/linux-autostart.ts:51-57 | An argument is quoted if and only if it has a space, tab, newline, double quote, dollar sign or backslash. |
| DesktopLaws.GuardedReadsBack | packages/electron/linux-autostart.ts:51-57 | Read as the specification reads the inside of quotes, where four characters need a backslash and no other has one, the quoted argument is the argument. |
| DesktopLaws.BlankArgument | packages/electron/linux-autostart.ts:66-69 | A blank background argument is none, any other is appended trimmed. |
| DesktopLaws.EntryLines | packages/electron/linux-autostart.ts:70-80 | The lines of the written entry. |
| DesktopRoundTrip.UnescapeIdentity | packages/electron/linux-app-discovery.ts:65-70 | Unescaping changes nothing in text where no backslash precedes an escape letter. |
| DesktopRoundTrip.ExecTextSafe | packages/electron/linux-autostart.ts:51-81 | The Exec text written for a path without a backslash is such text. |
| DesktopRoundTrip.ScanExecText | packages/electron/linux-app-discovery.ts:187-223 | Scanning the written Exec text gives the path as one word, then the background argument. |
| DesktopRoundTrip.Recovered | packages/electron/linux-autostart.ts:51-81 | Building an entry, parsing it and building its command gives exactly the path, the background argument and the target. |
| DesktopRoundTrip.NotRecovered | packages/electron/linux-app-discovery.ts:187-246 | A path outside the condition does not come back as the program. |
| DesktopRoundTrip.ProgramRecovered | packages/electron/linux-autostart.ts:51-81 | For every absolute path without a backslash, plain app name and plain background argument, the program read back is the path if and only if the path has no newline and is either quoted or free of single quotes and white space. |

## Left out

- Exec paths with a backslash: the writer escapes once and the reader unescapes twice, so some such paths come back changed and others by luck unchanged; the round trip is stated for paths without one.
- Desktop entry ids, icons, categories, and the file-system functions of autostart: declarations and effects.
- Lone UTF-16 surrogates: strings are sequences of Unicode characters, and lengths count those.
- Framing.NextPass: reads the header field at byte level, and lengths as exact numbers; the loop reads them as floating-point numbers, which differs only for lengths beyond any buffer.
- Bodies that are not JSON: the runtime would end on them; the model hands over bytes.
- Document positions and incremental changes in the emitted language server: separate from framing.
- Diagnostics' wording, severity and timestamps: the model keeps the code and the provider key.
- The order in which an object lists its keys: any enumeration of the fields, given as a parameter.
- Names inherited from the object prototype in theme and token lookups: records are maps of own properties.
- ThemeTokens.MaterializeTokens: the insertion order of the output record is not modelled.
- SshConfig.Reader.ParseCandidates: the file system is a map from resolved paths to texts; home expansion and globbing are a function given as a parameter, and unreadable files are not modelled.
- SshConfig.ImportedHosts: locale-aware comparison is any total preorder.
- Instance fields with one-branch normalisers (timeouts, remote install, local forward, secrets): they reach neither rows nor default.
- SSH connection liveness, the retry cap and one connection per id: nothing is claimed.
- Reconnect backoff of the notification listener: timers and sockets.
- BrokerLifecycle.AlwaysSingleFlight: a start may be called at any time by anyone, which is more than the restart timer does.
- Quit confirmation, windows, menus, tray, updater wiring, process spawning: user interface and foreign effects.
- Routing request parsers for snapshot, update and removal: field checks of one branch each.
