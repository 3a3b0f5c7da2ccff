/** `format_response` of app.py: turns whatever the analysis step returned
    into something the chat page can show, either a table rendered as a grid
    or a piece of Markdown text. */
module Formatter {
  import opened Text

  /** A pandas DataFrame; the formatter never looks inside it. */
  datatype Table = Table(columns: seq<string>, rows: seq<seq<string>>)

  /** The shapes an analysis result can take. Every list item, dictionary key
      and value and every other scalar is taken as already converted to text
      by Python's `str`. */
  datatype AnalysisResult =
    | Frame(table: Table)                   // a DataFrame
    | Items(items: seq<string>)             // a list or a tuple
    | Dict(entries: seq<(string, string)>)  // a dict, in insertion order
    | Absent                                // None
    | Scalar(text: string)                  // anything else, after str()

  /** What the chat page renders. */
  datatype Display = Grid(table: Table) | Markdown(text: string)

  const NoResults: string := "No results found."

  function Bullet(item: string): string
  {
    "- " + item
  }

  function EntryLine(key: string, value: string): string
  {
    "**" + key + "**: " + value
  }

  function BulletLines(items: seq<string>): seq<string>
  {
    seq(|items|, i requires 0 <= i < |items| => Bullet(items[i]))
  }

  function EntryLines(entries: seq<(string, string)>): seq<string>
  {
    seq(|entries|, i requires 0 <= i < |entries| => EntryLine(entries[i].0, entries[i].1))
  }

  predicate IsQuote(c: char)
  {
    c == '\'' || c == '"'
  }

  /** `.replace("'", "").replace('"', '')` on the stringified scalar. */
  function StripQuotes(s: string): string
  {
    ReplaceAll(ReplaceAll(s, "'", ""), "\"", "")
  }

  /** `format_response`. Only a table is shown as a grid, and it is shown
      unchanged; `None` becomes the fixed fallback sentence. */
  function Format(response: AnalysisResult): (d: Display)
    ensures d.Grid? <==> response.Frame?
    ensures response.Frame? ==> d.table == response.table
    ensures response.Absent? ==> d == Markdown("No results found.")
  {
    match response
    case Frame(t) => Grid(t)
    case Items(items) => Markdown(Join(BulletLines(items), "\n"))
    case Dict(entries) => Markdown(Join(EntryLines(entries), "\n"))
    case Absent => Markdown(NoResults)
    case Scalar(text) => Markdown(StripQuotes(text))
  }

  // ---------------------------------------------------------------------------
  // Lists and dictionaries: one line per element
  // ---------------------------------------------------------------------------

  /** An empty list or tuple gives empty text, not the fallback sentence. */
  lemma EmptyItemsAreNotAbsent()
    ensures Format(Items([])) == Markdown("")
    ensures Format(Items([])) != Format(Absent)
  {
  }

  /** An empty dict gives empty text too, not the fallback sentence. */
  lemma EmptyDictIsNotAbsent()
    ensures Format(Dict([])) == Markdown("")
    ensures Format(Dict([])) != Format(Absent)
  {
  }

  /** A list of n items whose items hold no line break reads back, line by
      line, as exactly n lines, the k-th being `"- "` followed by the k-th item. */
  lemma ItemsAreBulletLines(items: seq<string>)
    requires |items| > 0
    requires forall i :: 0 <= i < |items| ==> '\n' !in items[i]
    ensures Format(Items(items)).Markdown?
    ensures Split(Format(Items(items)).text, "\n") == BulletLines(items)
    ensures forall k :: 0 <= k < |items| ==> BulletLines(items)[k] == "- " + items[k]
  {
    var lines := BulletLines(items);
    forall i | 0 <= i < |lines|
      ensures '\n' !in lines[i]
    {
      assert lines[i] == "- " + items[i];
    }
    SplitJoin(lines, '\n');
  }

  /** A dictionary whose keys and values hold no line break reads back as one
      `**key**: value` line per entry, in insertion order. */
  lemma DictIsEntryLines(entries: seq<(string, string)>)
    requires |entries| > 0
    requires forall i :: 0 <= i < |entries| ==> '\n' !in entries[i].0 && '\n' !in entries[i].1
    ensures Format(Dict(entries)).Markdown?
    ensures Split(Format(Dict(entries)).text, "\n") == EntryLines(entries)
    ensures forall k :: 0 <= k < |entries| ==>
      EntryLines(entries)[k] == "**" + entries[k].0 + "**: " + entries[k].1
  {
    var lines := EntryLines(entries);
    forall i | 0 <= i < |lines|
      ensures '\n' !in lines[i]
    {
      assert lines[i] == "**" + entries[i].0 + "**: " + entries[i].1;
    }
    SplitJoin(lines, '\n');
  }

  /** `{"a": 1, "b": 2}` formats to two lines in insertion order. */
  lemma DictExample()
    ensures Format(Dict([("a", "1"), ("b", "2")])) == Markdown("**a**: 1\n**b**: 2")
  {
    var lines := EntryLines([("a", "1"), ("b", "2")]);
    assert lines[0] == "**a**: 1" && lines[1] == "**b**: 2";
    assert lines[1..] == ["**b**: 2"];
  }

  // ---------------------------------------------------------------------------
  // Scalars: quote stripping
  // ---------------------------------------------------------------------------

  /** Reference definition: keep every character that is not a quote, in order. */
  function Unquoted(s: string): string
  {
    if s == [] then [] else (if IsQuote(s[0]) then [] else [s[0]]) + Unquoted(s[1..])
  }

  lemma {:induction false} WithoutBothQuotes(s: string)
    ensures Without(Without(s, '\''), '"') == Unquoted(s)
    decreases |s|
  {
    if s != [] {
      WithoutBothQuotes(s[1..]);
      var t := Without(s, '\'');
      if s[0] == '\'' {
        assert t == Without(s[1..], '\'');
      } else {
        assert t == [s[0]] + Without(s[1..], '\'');
        assert t[1..] == Without(s[1..], '\'');
      }
    }
  }

  /** `Unquoted` holds no quote and keeps every other character. */
  lemma {:induction false} UnquotedHasNoQuotes(s: string)
    ensures forall c :: c in Unquoted(s) <==> c in s && !IsQuote(c)
    decreases |s|
  {
    if s != [] {
      UnquotedHasNoQuotes(s[1..]);
      assert s == [s[0]] + s[1..];
    }
  }

  lemma {:induction false} UnquotedAppend(a: string, b: string)
    ensures Unquoted(a + b) == Unquoted(a) + Unquoted(b)
    decreases |a|
  {
    if a != [] {
      UnquotedAppend(a[1..], b);
      var h := if IsQuote(a[0]) then [] else [a[0]];
      assert (a + b)[0] == a[0];
      assert (a + b)[1..] == a[1..] + b;
      assert Unquoted(a + b) == h + Unquoted(a[1..] + b);
      assert Unquoted(a) == h + Unquoted(a[1..]);
    } else {
      assert a + b == b;
    }
  }

  /** Text without quotes is left as it is. */
  lemma {:induction false} UnquotedOfQuoteFree(s: string)
    requires forall c :: c in s ==> !IsQuote(c)
    ensures Unquoted(s) == s
    decreases |s|
  {
    if s != [] {
      assert s[0] in s;
      assert forall c :: c in s[1..] ==> c in s;
      UnquotedOfQuoteFree(s[1..]);
    }
  }

  /** A scalar is shown as its text with every `'` and `"` removed and every
      other character kept, in its original order. */
  lemma ScalarDropsExactlyQuotes(text: string)
    ensures Format(Scalar(text)) == Markdown(Unquoted(text))
    ensures forall c :: c in Format(Scalar(text)).text <==> c in text && c != '\'' && c != '"'
  {
    ReplaceCharByNothing(text, '\'');
    ReplaceCharByNothing(Without(text, '\''), '"');
    WithoutBothQuotes(text);
    UnquotedHasNoQuotes(text);
  }

  /** Formatting the text of a formatted scalar again changes nothing. */
  lemma ScalarFormatIdempotent(text: string)
    ensures Format(Scalar(Format(Scalar(text)).text)) == Format(Scalar(text))
  {
    var once := Format(Scalar(text)).text;
    ScalarDropsExactlyQuotes(text);
    ScalarDropsExactlyQuotes(once);
    UnquotedOfQuoteFree(once);
  }

  /** One quote between two quote-free texts is dropped and the texts are
      joined. */
  lemma UnquotedAroundQuote(a: string, q: char, b: string)
    requires IsQuote(q)
    requires forall c :: c in a ==> !IsQuote(c)
    requires forall c :: c in b ==> !IsQuote(c)
    ensures Unquoted(a + [q] + b) == a + b
  {
    assert Unquoted([q]) == [] by {
      assert [q][1..] == [];
    }
    assert Unquoted(a + [q]) == a by {
      UnquotedOfQuoteFree(a);
      UnquotedAppend(a, [q]);
      assert a + [] == a;
    }
    assert Unquoted(b) == b by {
      UnquotedOfQuoteFree(b);
    }
    UnquotedAppend(a + [q], b);
  }

  /** `He said "hi"` is shown as `He said hi`. */
  lemma ScalarExample(text: string)
    requires text == "He said \"hi\""
    ensures Format(Scalar(text)) == Markdown("He said hi")
  {
    var a, b := "He said ", "hi";
    assert text == (a + ['"'] + b) + ['"'];
    ScalarDropsExactlyQuotes(text);
    UnquotedAppend(a + ['"'] + b, ['"']);
    UnquotedAroundQuote(a, '"', b);
    assert Unquoted(['"']) == [];
    assert a + b == "He said hi";
  }

  /** Reformatting is not idempotent for lists: quotes inside list items
      survive the bullet branch but not a second pass as a scalar. */
  lemma ItemsReformatNotIdempotent(item: string)
    requires item == "it's"
    ensures Format(Items([item])) == Markdown("- it's")
    ensures Format(Scalar(Format(Items([item])).text)) == Markdown("- its")
  {
    var line := "- " + item;
    assert Join([line], "\n") == line;
    assert line == "- it's";
    var a, b := "- it", "s";
    assert line == a + ['\''] + b;
    ScalarDropsExactlyQuotes(line);
    UnquotedAroundQuote(a, '\'', b);
    assert a + b == "- its";
  }
}
