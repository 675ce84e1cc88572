# Fizzy commands, translator clean-up, time windows and the comment timeline, in Dafny

This project models the deterministic core of Fizzy, a Rails card tracker, and proves properties of it.
It covers four parts.

- **Undoable bulk commands.**
  - `Command::Stage` moves the cards in scope to a workflow stage. It remembers each moved card's previous stage so that `undo` can move the card back.
  - `Command::Do` engages every card in scope. It remembers each card's closed/doing/considering flags and replays `close`/`engage`/`reconsider` on undo.
  - `Command::FilterCards` only computes the parameters it redirects with.
  - The cards live in a `CardStore` class whose `cards` map the commands update in place. The two stateful commands are classes whose snapshot field `execute` sets.
- **`Command::Ai::Translator`**, the parts around the language-model call:
  - `normalize`, which cleans the parsed model output: presence of context values, `symbolize_keys`, `compact`, and deletion of a blank `context` or blank `commands`;
  - the translation cache key;
  - the description of what the user is looking at.
- **`TimeWindowParser`.** Token normalization (downcase, strip whitespace, `_` and `-`), the eight relative windows around an explicit `now`, and `human_name_for`/`VALUES`.
- **`CommentsHelper`.** The card timeline: comments, boosts and assignments sorted by creation time; the summary line (first assignment, per-creator counts of the leading boosts); and the rest of the timeline, from the first comment on, cut by `chunk_while` into single comments and runs of boosts and assignments.

Instants, ids and counts are unbounded integers, as Ruby's are.
Strings are `seq<char>`.
Parsed JSON is a map from `Key` (a String or a Symbol key, kept apart as Ruby keeps them) to a small `Value` datatype.
`Json.Blank` is ActiveSupport's `blank?`: nil, false, an empty or whitespace-only string, an empty array or an empty hash.

Two behaviours of the code worth knowing:
- The time windows are closed ranges `first..last`, both ends included, as Ruby's `..` builds them.
- After a stage change and its undo, a compatible card that had no stage stays in the new stage. Undo finds nothing to move it back to, so it does not go back to having no stage.

## Model

| member | source | states |
|---|---|---|
| StageCommand.CompatibleWithStage | app/models/command/stage.rb:48-50 | no card is compatible with a missing stage, and none whose collection has no workflow; otherwise a card is compatible exactly when its collection's workflow is the stage's |
| Cards.FindStage | app/models/command/stage.rb:44-46 | the stage lookup succeeds exactly for a stored id and yields that stage |
| StageCommand.StageCommand.HasStage | app/models/command/stage.rb:6 | the command is valid exactly when its stage id resolves to a stored stage |
| StageCommand.StageCommand.StageLabel | app/models/command/stage.rb:9 | the title shows the stage's name, or the bare id when the stage is gone |
| StageCommand.StageCommand.Title | app/models/command/stage.rb:8-10 | the title is "Move ", the cards description verbatim, then " to stage '<label>'" |
| StageCommand.Snapshot | app/models/command/stage.rb:13-21 | the snapshot's keys are exactly the compatible cards in scope, each mapped to its stage before the move |
| StageCommand.Staged | app/models/command/stage.rb:16-21 | after the loop every compatible card in scope has the target stage and every other card is unchanged |
| StageCommand.UndoTarget | app/models/command/stage.rb:29-36 | undo moves a card only if it is recorded, still accessible, had a stage, and that stage still exists; it then moves it to that stage |
| StageCommand.Restored | app/models/command/stage.rb:29-39 | undo changes only a card's stage, and only for a card recorded in the snapshot, still accessible, that had a stage which still exists; that card goes back to the recorded stage and every other card is unchanged |
| StageCommand.UnresolvableStageChangesNothing | app/models/command/stage.rb:17 | with a stage id that does not resolve, execute moves no card and records nothing |
| StageCommand.UndoTouchesOnlySnapshot | app/models/command/stage.rb:32-39 | undo changes no card absent from the snapshot |
| StageCommand.ExecuteThenUndo | app/models/command/stage.rb:12-41 | after execute then undo, a compatible accessible card whose old stage still exists is back to its old state; a compatible card that had no stage stays in the new stage; an incompatible card is never touched |
| StageCommand.StageCommand.Execute | app/models/command/stage.rb:12-25 | the loop leaves the cards as `Staged` says and stores the snapshot `Snapshot` describes, once, after the loop |
| StageCommand.StageCommand.Undo | app/models/command/stage.rb:27-41 | replaying the snapshot leaves the cards as `UndoTarget` says for each card; without a snapshot nothing changes |
| DoCommand.DoCommand.Title | app/models/command/do.rb:6-8 | the title is "Move ", the cards description verbatim, then " to Doing" |
| DoCommand.FlagsOf | app/models/command/do.rb:15 | each of the closed/doing/considering flags is set exactly when the card has that status, so exactly one of them is set |
| DoCommand.Snapshot | app/models/command/do.rb:13-20 | the snapshot's keys are exactly the cards in scope, each with its closed/doing/considering flags before engaging |
| DoCommand.Engaged | app/models/command/do.rb:14-17 | after the loop every card in scope is doing and every other card is unchanged |
| DoCommand.Replayed | app/models/command/do.rb:27-29 | calling close, engage and reconsider in that order leaves the status of the last flag set, or the status unchanged when none is set |
| DoCommand.ReplayRecoversStatus | app/models/command/do.rb:15-29 | replaying the flags recorded for a status restores that status, whatever the card's status is now |
| DoCommand.Restored | app/models/command/do.rb:25-31 | undo changes only the status of a card, and only of a recorded card the user can still access, which gets the status its flags replay to; every other card is unchanged |
| DoCommand.ExecuteThenUndo | app/models/command/do.rb:10-33 | after execute then undo, a card in scope that is still accessible has its status back; one no longer accessible stays doing; a card outside the scope is never touched |
| DoCommand.DoCommand.Execute | app/models/command/do.rb:10-21 | every card in scope is engaged, none skipped, and the snapshot is stored once after the loop |
| DoCommand.DoCommand.Undo | app/models/command/do.rb:23-33 | each recorded card still accessible gets its flags replayed; every other card is unchanged; without a snapshot nothing changes |
| FilterCardsCommand.FilterCards.RedirectParams | app/models/command/filter_cards.rb:9 | exactly one `card_ids` parameter is left and it holds the command's ids; every other parameter passes through unchanged |
| FilterCardsCommand.RedirectIdempotent | app/models/command/filter_cards.rb:9 | redirecting with the redirect parameters again gives the same parameters |
| FilterCardsCommand.FilterCards.Title | app/models/command/filter_cards.rb:4-6 | the title starts with "Filter cards ", and nothing follows exactly when the command has no ids |
| FilterCardsCommand.TitleListsIds | app/models/command/filter_cards.rb:4-6 | after "Filter cards ", splitting the title at ", " and reading each numeral gives back the command's ids, in stored order |
| Translator.PresenceLoop | app/models/command/ai/translator.rb:305-307 | the loop replaces every context value by its `presence` and keeps every key |
| Translator.CompactContextInPlace | app/models/command/ai/translator.rb:304-310 | the in-place context clean-up computes the compacted context |
| Translator.Normalized | app/models/command/ai/translator.rb:303-315 | normalize fails exactly when the context is truthy but not a Hash |
| Translator.Normalize | app/models/command/ai/translator.rb:303-315 | the step-by-step mutation of the parsed Hash computes `Normalized` |
| Translator.Symbolize | app/models/command/ai/translator.rb:308 | every key of the result is a symbol, there is one for each spelling among the input's keys, and a symbol key of the input keeps its value |
| Translator.SymbolizeSpec | app/models/command/ai/translator.rb:308 | when no two keys share a spelling, every string key's value moves unchanged to the symbol of the same spelling |
| Translator.Compact | app/models/command/ai/translator.rb:309 | no nil is left, no key is added, and every other entry keeps its value |
| Translator.DeleteIfBlank | app/models/command/ai/translator.rb:312-313 | the key is gone exactly when it was absent or its value was blank; every other entry is kept unchanged |
| Translator.NormalizedShape | app/models/command/ai/translator.rb:314 | every key of the result is a symbol and no value is nil |
| Translator.ResultContext | app/models/command/ai/translator.rb:304-312 | the result has a context exactly when the input's context is a Hash with something left after compaction; it is then that compacted Hash |
| Translator.ContextHasNoBlankValue | app/models/command/ai/translator.rb:305-309 | a context in the result is a non-empty Hash with symbol keys and no blank value |
| Translator.ContextKeepsNonBlank | app/models/command/ai/translator.rb:305-309 | a context entry survives exactly when its value is not blank, and then keeps its value under the symbol of the same name |
| Translator.CompactContextEmpty | app/models/command/ai/translator.rb:304-310 | a compacted context is empty exactly when every value of the parsed context is blank |
| Translator.ContextDroppedWhenEmpty | app/models/command/ai/translator.rb:312 | the result has no context exactly when the input has none, a falsy one, or one whose every value is blank |
| Translator.CommandsKeptUnlessBlank | app/models/command/ai/translator.rb:313-314 | the commands are kept, unchanged and in order, exactly when they are not blank |
| Translator.OtherKeysPassThrough | app/models/command/ai/translator.rb:314 | any other top-level entry passes through under its symbol unless its value is nil |
| Translator.NormalizeIdempotent | app/models/command/ai/translator.rb:303-315 | normalizing a normalized Hash changes nothing |
| Translator.NormalizedHasNormalShape | app/models/command/ai/translator.rb:303-315 | a normalized result has symbol keys, no nil, a non-empty context of non-blank values, and non-blank commands |
| Translator.ReparsedNormalizesBack | app/models/command/ai/translator.rb:303-315 | a normalized result, written out as JSON, parsed again and normalized, comes back unchanged |
| Translator.NormalShapeReparses | app/models/command/ai/translator.rb:303-315 | any Hash of that shape, re-parsed, normalizes back to itself |
| Translator.SymbolizeStringify | app/models/command/ai/translator.rb:314 | symbol keys written out as strings and symbolized again come back unchanged |
| Translator.ViewOf | app/models/command/ai/translator.rb:293-301 | viewing a card's contents wins over viewing a list, and viewing neither is the third case |
| Translator.CurrentViewDescription | app/models/command/ai/translator.rb:293-301 | looking inside a card gives "inside a card" whatever else holds, then a list gives "viewing a list of cards", and otherwise "not seeing cards"; no phrase contains `:` |
| Translator.CacheKey | app/models/command/ai/translator.rb:24-26 | every key starts with the fixed `command_translator:` prefix |
| Translator.DescriptionSuffixes | app/models/command/ai/translator.rb:25 | a query followed by `:` and a view phrase determines both the query and the view |
| Translator.CacheKeyInjective | app/models/command/ai/translator.rb:24-26 | different users, queries or views never share a cache key, even when the query contains `:` |
| TimeWindowParser.DowncaseChar | app/models/time_window_parser.rb:55 | lowercasing leaves no capital, keeps separators as separators, and keeps every non-capital |
| TimeWindowParser.NormalizeText | app/models/time_window_parser.rb:55 | normalized text is no longer than the token and holds no separator and no capital |
| TimeWindowParser.Normalize | app/models/time_window_parser.rb:53-57 | nil normalizes to nil and a string to a string |
| TimeWindowParser.NormalizeIdempotent | app/models/time_window_parser.rb:53-57 | normalizing twice is normalizing once, and nil stays nil |
| TimeWindowParser.NormalizeConcat | app/models/time_window_parser.rb:55 | normalization works character by character: it commutes with concatenation |
| TimeWindowParser.SeparatorIgnored | app/models/time_window_parser.rb:55 | inserting a whitespace, `_` or `-` anywhere in a token does not change its normalization |
| TimeWindowParser.Window | app/models/time_window_parser.rb:32-49 | a normalized value names a window exactly when it is one of the eight values; "today" and "this..." name the period containing `now`, "yesterday" and "last..." the one before it |
| TimeWindowParser.Parse | app/models/time_window_parser.rb:31-50 | a nil token parses to nil; a string parses to the window of its normalization |
| TimeWindowParser.ParseLowercase | app/models/time_window_parser.rb:31-57 | a token of lowercase letters is its own normalization and parses to its own window |
| TimeWindowParser.ParseDefinedIff | app/models/time_window_parser.rb:32-49 | a token parses exactly when its normalization is one of the eight values; otherwise the result is nil, not an error |
| TimeWindowParser.ParseThis | app/models/time_window_parser.rb:33-42 | "today", "thisweek", "thismonth" and "thisyear" name the period containing `now` |
| TimeWindowParser.ParseLast | app/models/time_window_parser.rb:35-48 | "yesterday", "lastweek", "lastmonth" and "lastyear" name the period containing one period before `now` |
| TimeWindowParser.CapitalizedThisWeek | app/models/time_window_parser.rb:31-57 | "ThisWeek" parses as the current week |
| TimeWindowParser.SeparatedThisWeek | app/models/time_window_parser.rb:31-57 | "this", any one separator ("this_week", "this-week", "this week"), "week" parses as the current week |
| TimeWindowParser.ParsedOrdered | app/models/time_window_parser.rb:33-48 | every parsed window starts at or before its end |
| TimeWindowParser.CurrentContainsNow | app/models/time_window_parser.rb:34-42 | the "today", "thisweek", "thismonth" and "thisyear" windows contain `now` |
| TimeWindowParser.LastBeforeThis | app/models/time_window_parser.rb:34-48 | each "yesterday"/"last ..." window ends before the matching current window begins |
| TimeWindowParser.UniformValid | app/models/time_window_parser.rb:34-48 | the ordering facts assumed of the calendar are met by a calendar of fixed-length periods |
| TimeWindowParser.Values | app/models/time_window_parser.rb:15 | `VALUES` are the table's keys in declaration order |
| TimeWindowParser.Lookup | app/models/time_window_parser.rb:22-24 | a label is found exactly for a value present in the table, and it is a label declared next to that value |
| TimeWindowParser.ValuesDistinct | app/models/time_window_parser.rb:4-15 | the eight values are pairwise distinct |
| TimeWindowParser.HumanNameFor | app/models/time_window_parser.rb:22-24 | `human_name_for` answers exactly for the eight values |
| TimeWindowParser.HumanNameForValue | app/models/time_window_parser.rb:4-24 | each value's human name is the one declared next to it |
| CommentsHelper.SortByCreationSpec | app/helpers/comments_helper.rb:13 | the sort orders items by creation time and keeps exactly the same items |
| CommentsHelper.CombineAndSort | app/helpers/comments_helper.rb:12-14 | the combined list is sorted by creation time and is a permutation of the comments, boosts and assignments |
| CommentsHelper.FirstAssignment | app/helpers/comments_helper.rb:31 | nothing is found exactly when there is no assignment; otherwise the result is an assignment with none before it |
| CommentsHelper.InitialAssignee | app/helpers/comments_helper.rb:30-33 | the summary names no assignee exactly when there is no assignment, else the first assignment's assignee |
| CommentsHelper.LeadingBoosts | app/helpers/comments_helper.rb:36 | the leading run is the longest prefix made only of boosts |
| CommentsHelper.TallySpec | app/helpers/comments_helper.rb:39 | the per-creator tally has one entry per creator and no other; each holds the number of that creator's boosts, and the counts add up to the number of boosts |
| CommentsHelper.TallyOrder | app/helpers/comments_helper.rb:39 | the tally lists creators in the order they first appear |
| CommentsHelper.InitialBoostCounts | app/helpers/comments_helper.rb:35-42 | there are no initial boost counts exactly when the list does not start with a boost |
| CommentsHelper.InitialBoostCountsSpec | app/helpers/comments_helper.rb:35-42 | the initial counts are well formed, count each creator's boosts in the leading run, and add up to its length |
| CommentsHelper.LeadingNonComments | app/helpers/comments_helper.rb:45 | the count is the length of the longest prefix without a comment |
| CommentsHelper.RemainingItems | app/helpers/comments_helper.rb:44-46 | the remaining items are a suffix that is empty or starts with a comment, and the dropped prefix holds no comment |
| CommentsHelper.Grouped | app/helpers/comments_helper.rb:57-59 | an item is grouped exactly when it is not a comment |
| CommentsHelper.Chunks | app/helpers/comments_helper.rb:48 | there are no chunks exactly for an empty list, and the first chunk opens with the first item |
| CommentsHelper.ChunksSpec | app/helpers/comments_helper.rb:48 | the chunks put back together are the items; each chunk is non-empty and is one comment or a run of boosts and assignments; no two neighbouring chunks are both runs |
| CommentsHelper.GroupedBoostCounts | app/helpers/comments_helper.rb:72-75 | there are no grouped boost counts exactly when the chunk has no boost |
| CommentsHelper.GroupedBoostCountsTotal | app/helpers/comments_helper.rb:66-75 | in a grouped chunk the per-creator counts are well formed and add up to the number of boosts in it |
| CommentsHelper.RenderChunk | app/helpers/comments_helper.rb:48-54 | a chunk that opens with a comment renders as that comment; any other chunk renders as a group, whose boost counts are nil exactly when it holds no boost |
| CommentsHelper.RenderAll | app/helpers/comments_helper.rb:48-54 | every chunk is rendered, one view per chunk, in order |
| CommentsHelper.RenderRemaining | app/helpers/comments_helper.rb:44-55 | nothing is rendered exactly when the list holds no comment; otherwise the rendered rest opens with a comment |
| CommentsHelper.DroppedPrefixHasNoComment | app/helpers/comments_helper.rb:45-46 | dropping the leading non-comments loses no comment |
| CommentsHelper.AllCommentsRendered | app/helpers/comments_helper.rb:44-55 | the rendered chunks show every comment of the list once, in order |
| CommentsHelper.LaterAssignmentsRendered | app/helpers/comments_helper.rb:44-55 | every assignment from the first comment on is rendered in its group, once and in order |
| CommentsHelper.HiddenBeforeFirstComment | app/helpers/comments_helper.rb:30-55 | a boost or assignment before the first comment that is neither in the leading boosts nor the first assignment is shown nowhere: deleting it leaves the assignee, the initial boost counts and the rendered rest unchanged |
| CommentsHelper.FirstAssignmentShownTwice | app/helpers/comments_helper.rb:30-55 | when the first assignment comes after the first comment, its assignee is named in the summary and again in the group that renders it |

## Left out

- The language-model call, its prompt and instructions, the Rails cache, logging, and the parsing of the model's text by `JSON.parse` (app/models/command/ai/translator.rb:12-22, 28-291) are not modelled. `Translator.FromParse` states what parsing yields: string keys at the top level and inside the context.
- Translator.Normalized: requires that no two keys at the top level, or in the context, share a spelling. `JSON.parse` output always meets this. With such a collision Ruby's `symbolize_keys` keeps whichever entry comes last, and the model does not follow that order.
- The parsed model output is taken to be a Hash at the top level. Any other top-level JSON value makes `normalize` raise in the source, at the latest at `symbolize_keys`, which only a Hash has. That error path is not modelled.
- JSON numbers are integers in the model. Floating-point values never affect blankness, which is all normalization inspects.
- Transactions, `update!` and rollback on a failing card are not modelled. `Execute` assigns the snapshot once, after the loop, which is where the source persists it.
- `find_each` visits the cards in scope in id order. The model takes the scope as a sequence of distinct ids, so the visiting order is a parameter. The accessible cards and the stage table are parameters too.
- `cards_description` and the `Command::Cards` mixin are not part of this model. The description is a string parameter of the titles.
- `closed_cards` (app/models/command/stage.rb:52-54) is never called, so it is not modelled.
- StageCommand.UndoTarget: a card recorded with no stage is skipped. Ruby looks up stage `nil.to_i`, which is 0, and the model assumes no stage has id 0. The `to_i` on ids read back from JSON storage is not modelled, because ids are integers throughout.
- StageCommand.StageCommand.Undo and DoCommand.DoCommand.Undo on a command that was never executed: Ruby raises on the missing snapshot. The model returns `false` and changes nothing.
- The undo loops visit the snapshot in Hash order. The model visits it in an arbitrary order; each card is touched once, so the order does not matter.
- `redirect_to` and the route helper of `Command::FilterCards#execute` are not modelled, only the parameters it redirects with. The command changes no card and writes nothing back.
- The calendar arithmetic of ActiveSupport (`beginning_of_week`, `end_of_month`, `1.year` ago, time zones) is a parameter. It is bound only by the ordering facts of `TimeWindowParser.Calendar.Valid`. The exact width of a window is therefore not stated.
- TimeWindowParser.DowncaseChar: only ASCII capitals and the Kelvin sign are lowercased. Ruby's full Unicode `downcase` also lowercases other letters. None of those becomes a lone ASCII letter (dotted capital I, for one, becomes `i` plus a combining dot). So which of the eight values a token matches, and every `Parse` result, is unaffected.
- CommentsHelper.CombineAndSort: the order among items created at the same instant is not stated, because Ruby's `sort_by` is not stable. The model sorts with an insertion sort and claims only the order by time and the permutation.
- The HTML is not modelled: `content_tag`, `safe_join`, the comment partial, `to_sentence` and `time_ago_in_words`. Neither are `creator_info` and the joining of the summary line (app/helpers/comments_helper.rb:16-28). Users are integer ids rather than names, a grouped chunk renders as its boost counts and its assignees, and `render_grouped_boosts` renders as the per-creator counts in first-appearance order.
