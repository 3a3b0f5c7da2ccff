# Data Analysis Chatbot: response formatting and list-query routing

This project models the core of the chatbot's `app.py`: the part that decides
how a question about an uploaded CSV file is answered and how the answer is
shown. The model has three modules:

- `Text` (text.dfy) holds the Python string operations the core relies on:
  - `Lower` is `str.lower` for ASCII letters;
  - `Split` is `str.split(sep)`, left to right and without overlapping matches;
  - `Last` is `seq[-1]`;
  - `Join` is `sep.join`;
  - `ReplaceAll` is `str.replace`, defined on its own and proved equal to
    joining the split pieces with the replacement;
  - `Strip` is `str.strip`, using Python's `isspace` set;
  - `Contains` is the substring test `in`.

  The lemmas say what each operation keeps and removes.
- `Formatter` (formatter.dfy) models `format_response` as `Format`:
  - a DataFrame is shown as a grid, unchanged;
  - a list or tuple becomes one `- item` line per element;
  - a dict becomes one `**key**: value` line per entry, in insertion order;
  - `None` becomes `No results found.`;
  - anything else becomes its `str()` with every `'` and `"` removed
    (`StripQuotes`).
- `Router` (router.dfy) models `chat_with_csv` as `ChatWithCsv`.
  - The agent is either `Unavailable`, when building the language-model client
    or the agent-wrapped dataframe raised, or `Ready` with a function from
    prompts to replies (a result, or a raised message).
  - A prompt whose lower-cased text contains `what are all` or `list all` is a
    list query (`HasListIntent`). For it, the column name is the text after
    the last `all`, stripped, with `names` rewritten to `name` and then
    `items` to `item` (`DeriveColumnName`, `Singularize`).
  - If exactly one column has that name, its distinct values are listed in
    first-occurrence order (`DirectLookup`, `Unique`: pandas `unique`).
  - In every other case the agent answers (`FromAgent`). A failure to build
    or call the agent becomes `Error processing query: ` followed by the
    message.

A dataset is a sequence of columns with their cells as text. pandas allows two
columns with the same name: `df[name]` is then a frame, and `.unique()` raises.
The inner handler catches that, and the prompt falls through to the agent.

Where the code and its usual description differ, the model follows the code:

- "what are all item names" derives the column `item name`, not `item`. The
  `names` rewrite turns `item names` into `item name`, and the `items` rewrite
  then finds nothing.
- Only `None` gives the fallback sentence. An empty list is shown as empty
  text.
- Formatting the text of a formatted answer again is guaranteed to change
  nothing for every scalar (`ScalarFormatIdempotent`). A list or dict breaks
  this once an item holds a quote, because quotes survive the bullet and
  entry branches (`ItemsReformatNotIdempotent`).

## Model

| member | source | states |
|---|---|---|
| Text.Lower | app.py:142 | `prompt.lower()` keeps the length, maps every character through ASCII lower-casing, and leaves no upper-case ASCII letter |
| Text.LowerOfLowerCase | app.py:142 | lower-casing text without upper-case letters changes nothing |
| Text.ContainsChar | app.py:146 | the substring test for a one-character pattern is membership of that character; it carries the character facts of `strip()` over to `in` |
| Text.JoinSplit | app.py:146 | joining the pieces of `split(sep)` with `sep` gives back the original text |
| Text.SplitFree | app.py:146 | text without the separator splits into itself alone |
| Text.LastPieceFree | app.py:146 | the last piece of `split("all")` never contains the separator |
| Text.LastPieceSuffix | app.py:146 | the last piece of a split is a suffix of the split text |
| Text.LastPieceAfterSep | app.py:146 | when the split has more than one piece, an occurrence of the separator ends right where the last piece begins |
| Text.LastPieceAfterLast | app.py:146 | for text holding the separator, `split(sep)[-1]` is exactly the text after an occurrence of it, with no occurrence inside: the text after the last one |
| Text.SplitCut | app.py:146 | when the first occurrence of the separator follows `a`, the split is `a` followed by the split of the rest |
| Text.SplitAtFirst | app.py:88-91 | for a one-character separator absent from `a`, splitting `a + sep + b` yields `a` then the pieces of `b` |
| Text.SplitJoin | app.py:88-91 | lines joined with `"\n"`, as the list and dict branches join them, split back into the same lines when none holds a line break |
| Text.ReplaceIsJoinOfSplit | app.py:146 | `s.replace(pat, rep)` equals `rep.join(s.split(pat))` |
| Text.ReplaceAbsent | app.py:146 | replacing a pattern that does not occur changes nothing |
| Text.ReplaceSkip | app.py:146 | a prefix without occurrences of the pattern is copied unchanged by `replace` |
| Text.ReplaceChars | app.py:146 | every character of a replaced text comes from the original or from the replacement |
| Text.HeadOfReplace | app.py:146 | a replaced non-empty text starts with the original first character or the replacement's first character |
| Text.ReplaceCharByNothing | app.py:98 | replacing a character with `""` removes exactly that character, keeping the rest in order |
| Text.LeadingSpaces | app.py:146 | the count of leading characters `strip()` drops: all of them white space, and the next character is not |
| Text.TrailingStart | app.py:146 | where the trailing white space `strip()` drops begins: everything after it is white space, and the character before it is not |
| Text.Strip | app.py:146 | `strip()` returns a slice of the text with only whitespace on either side, which neither starts nor ends with whitespace |
| Text.StripAfterSpace | app.py:146 | text that neither starts nor ends with white space, after one white-space character, strips to itself |
| Text.StripContains | app.py:146 | whatever occurs in the stripped text occurs in the original |
| Text.StripChars | app.py:146 | the stripped text holds only characters of the original |
| Formatter.Format | app.py:83-101 | only a DataFrame gives a grid, and that grid is the DataFrame unchanged; `None` gives `No results found.` |
| Formatter.EmptyItemsAreNotAbsent | app.py:88-93 | an empty list is shown as empty text, which differs from the `None` fallback |
| Formatter.EmptyDictIsNotAbsent | app.py:90-93 | an empty dict is shown as empty text, which differs from the `None` fallback |
| Formatter.ItemsAreBulletLines | app.py:88-89 | a list is shown as exactly one `- item` line per element, in order |
| Formatter.DictIsEntryLines | app.py:90-91 | a dict is shown as exactly one `**key**: value` line per entry, in insertion order |
| Formatter.DictExample | app.py:90-91 | `{"a": 1, "b": 2}` is shown as `**a**: 1` and `**b**: 2` on two lines |
| Formatter.WithoutBothQuotes | app.py:98 | the two chained `replace` calls keep exactly the characters that are not quotes |
| Formatter.UnquotedHasNoQuotes | app.py:98 | removing the quotes leaves no quote and keeps every other character present |
| Formatter.UnquotedAppend | app.py:98 | removing the quotes distributes over concatenation |
| Formatter.UnquotedOfQuoteFree | app.py:98 | text without quotes is left unchanged |
| Formatter.UnquotedAroundQuote | app.py:98 | one quote between two quote-free texts is dropped and the two texts are joined |
| Formatter.ScalarDropsExactlyQuotes | app.py:94-99 | a scalar is shown as its text with every `'` and `"` removed and all other characters kept in order |
| Formatter.ScalarFormatIdempotent | app.py:96-99 | formatting the text of a formatted scalar again changes nothing |
| Formatter.ScalarExample | app.py:96-99 | `He said "hi"` is shown as `He said hi` |
| Formatter.ItemsReformatNotIdempotent | app.py:88-99 | `["it's"]` is shown as `- it's`, but formatting that text again as a scalar gives `- its` |
| Router.ReplaceKeepsAllFree | app.py:146 | the `names` and `items` rewrites cannot create an `all` in text that has none |
| Router.ListIntentHasAll | app.py:142 | a list query's lower-cased text holds an `all` |
| Router.ColumnNameAfterLastAll | app.py:142-146 | for a list query, the column name is derived from the text after the last `all` of the lower-cased prompt |
| Router.DerivedNameHasNoAll | app.py:146 | the derived column name never contains `all` |
| Router.SingularizeKeepsLowerCase | app.py:146 | the two rewrites add no upper-case letter |
| Router.DerivedNameIsLowerCase | app.py:142-146 | the derived column name holds no upper-case ASCII letter |
| Router.TailAfterAll | app.py:146 | the text after the last `all` is the last piece when no earlier `all` overlaps it |
| Router.DeriveItemNames | app.py:146 | "what are all item names" derives `item name` |
| Router.DeriveListAllItems | app.py:142-146 | "List all Items" derives `item` |
| Router.ListAllItemsHasIntent | app.py:142 | "List all Items" is a list query |
| Router.FirstIndex | app.py:148 | the index returned is the first position holding the value |
| Router.FirstIndexOfLast | app.py:148 | appending a value keeps the first positions of the earlier values, and a new value first occurs at the end |
| Router.Unique | app.py:148 | `unique()` keeps exactly the values of the column, none twice |
| Router.UniqueOrder | app.py:148 | the distinct values come in the order of their first occurrences in the column |
| Router.UniqueOfDistinct | app.py:148 | a column without repeats is its own list of distinct values |
| Router.UniqueItems | app.py:148 | `apple, pear, apple` has distinct values `apple, pear` |
| Router.BulletItems | app.py:88-89 | `[apple, pear]` is shown as `- apple` and `- pear` on two lines |
| Router.ColumnsNamedNone | app.py:147 | with no column of that name, `df[name]` selects nothing and the membership test fails |
| Router.ColumnsNamedOne | app.py:147-148 | a name held by exactly one column selects exactly that column |
| Router.ColumnsNamedTwo | app.py:147-148 | a name held by two columns selects at least two |
| Router.ColumnsNamedAtLeastOne | app.py:147 | a name held by some column selects at least one |
| Router.ColumnsNamedMembers | app.py:147-148 | every selected column is a column of the dataset with the requested name |
| Router.AnswerSources | app.py:142-156 | every answer from a ready agent is the agent's formatted reply, or, for a list query only, the distinct values of a column named by the derived name |
| Router.SetupFailureComesFirst | app.py:105-156 | a failure while building the agent gives `Error processing query: ` and its message, whatever the prompt |
| Router.NoListIntentAsksAgent | app.py:142-154 | a prompt without `what are all` or `list all` is answered by the agent |
| Router.DirectLookupAnswers | app.py:142-149 | a list query naming exactly one column is answered with that column's distinct values as bullets, independently of the agent |
| Router.DirectAnswerLines | app.py:147-149 | a direct answer reads back as one `- value` line per distinct value |
| Router.UnknownColumnAsksAgent | app.py:147-156 | when no column has the derived name, the agent answers; a raised error gives `Error processing query: ` and the message |
| Router.DuplicateColumnAsksAgent | app.py:144-153 | when two columns share the derived name, the lookup raises and the agent answers |
| Router.UnreachableColumnNames | app.py:142-147 | a column name with an upper-case letter or containing `all` is never the derived name |
| Router.UnreachableDatasetAsksAgent | app.py:142-154 | if every column name has an upper-case letter or contains `all`, the agent always answers |
| Router.ItemNamesAsksAgent | app.py:142-154 | with columns `item` and `price`, "what are all item names" goes to the agent |
| Router.ListAllItemsAnswersDirectly | app.py:142-149 | with columns `item` and `price`, "List all Items" is answered `- apple` / `- pear` without the agent |

## Left out

- The Streamlit page is outside this model: layout, sidebar, session state, chat history and rendering (app.py:13-81 and 158-204).
- File upload and CSV/Excel parsing (app.py:59-77) are left out. The dataset is a parameter.
- Building the OpenAI client and the SmartDataframe, with its configuration and enhanced prompt (app.py:106-139), is left out. The language-model agent is an opaque parameter: it either failed to build or maps each prompt to a reply. Loading the API key from the environment is left out too.
- The `st.warning` call in the inner handler (app.py:151) is a UI side effect. Only the fall-through to the agent is modelled.
- The `except` branch of `format_response` (app.py:100-101) is left out. The modelled branches cannot raise once `str()` has produced text.
- `str()` of arbitrary Python objects is left out. List items, dict keys and values and scalars enter the model as text already converted.
- Text.Lower: only ASCII letters are lower-cased. Python's full Unicode case mapping is not modelled.
- Router.Unique: values are compared as text. pandas compares the raw cell values and treats NaN specially, and neither is modelled.
- Formatter.ItemsAreBulletLines: requires that no item holds a line break. Otherwise the line count differs from the item count, and the lemma does not speak to that case. It also requires a non-empty list; the empty list is stated by Formatter.EmptyItemsAreNotAbsent.
- Formatter.DictIsEntryLines: requires that no key or value holds a line break, for the same reason. It also requires a non-empty dict; the empty dict is stated by Formatter.EmptyDictIsNotAbsent.
- Router.DirectAnswerLines: requires a non-empty column whose values hold no line break, for the same reason.
- Charts and other rich results the agent may produce are only modelled as analysis results: a table, a list, a dict, `None` or text.
