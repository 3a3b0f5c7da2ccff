/** The front half of `chat_with_csv` in app.py: a prompt that asks to list
    "all" of something is answered straight from the dataset when the words
    after the last "all" name a column; every other prompt goes to the
    external analysis agent, whose answer (or failure) is formatted. */
module Router {
  import opened Text
  import opened Formatter

  datatype Option<T> = None | Some(value: T)

  /** One column of the uploaded dataset, its cells already shown as text.
      A dataset is the sequence of its columns, in order; pandas allows two
      columns with the same name. */
  datatype Column = Column(name: string, values: seq<string>)

  /** What `pandas_ai.chat(prompt)` gives back: a result, or the message of
      the exception it raised. */
  datatype AgentReply = Answered(result: AnalysisResult) | Raised(message: string)

  /** The analysis agent as this core sees it. `Unavailable` stands for the
      language-model client or the agent-wrapped dataframe raising while they
      are built, before the prompt is looked at; `Ready` answers each prompt. */
  datatype Agent = Unavailable(message: string) | Ready(chat: string -> AgentReply)

  const ErrorPrefix: string := "Error processing query: "

  // ---------------------------------------------------------------------------
  // Intent and column name
  // ---------------------------------------------------------------------------

  /** The prompt, lower-cased, asks "what are all" or "list all". */
  predicate HasListIntent(prompt: string)
  {
    Contains(Lower(prompt), "what are all") || Contains(Lower(prompt), "list all")
  }

  /** `prompt.lower().split("all")[-1].strip()`, then `"names"` becomes
      `"name"` and after that `"items"` becomes `"item"`, everywhere. */
  function DeriveColumnName(prompt: string): string
  {
    Singularize(Strip(Last(Split(Lower(prompt), "all"))))
  }

  /** `.replace("names", "name").replace("items", "item")`. */
  function Singularize(s: string): string
  {
    ReplaceAll(ReplaceAll(s, "names", "name"), "items", "item")
  }

  /** A replacement text that cannot begin, or finish, an "all" together
      with the characters around it. */
  predicate NoAllAcross(rep: string)
  {
    && |rep| > 0
    && rep[0] != 'l'
    && forall i :: 0 <= i < |rep| && rep[i] == 'a' ==> i + 1 < |rep| && rep[i + 1] != 'l'
  }

  lemma OccursAtAll(r: string, i: int)
    requires 0 <= i && i + 3 <= |r|
    ensures OccursAt(r, i, "all") <==> r[i] == 'a' && r[i + 1] == 'l' && r[i + 2] == 'l'
  {
    if r[i] == 'a' && r[i + 1] == 'l' && r[i + 2] == 'l' {
      assert r[i..i + 3] == "all";
    }
  }

  /** No "all" starts inside a replacement text that cannot begin one. */
  lemma NoAllInReplacement(rep: string, rest: string, i: nat)
    requires NoAllAcross(rep) && i < |rep| && i + 3 <= |rep + rest|
    ensures !OccursAt(rep + rest, i, "all")
  {
    var r := rep + rest;
    OccursAtAll(r, i);
    assert r[i] == rep[i];
    if i + 1 < |rep| {
      assert r[i + 1] == rep[i + 1];
    }
  }

  /** A replacement starts with "ll" only where its input does: the
      replacement text cannot supply an "l" at the front. */
  lemma HeadPairOfReplace(t: string, pat: string, rep: string)
    requires |pat| > 0 && NoAllAcross(rep) && |ReplaceAll(t, pat, rep)| >= 2
    ensures || ReplaceAll(t, pat, rep)[0] != 'l'
            || ReplaceAll(t, pat, rep)[1] != 'l'
            || (|t| >= 2 && t[0] == 'l' && t[1] == 'l')
  {
    var u := ReplaceAll(t, pat, rep);
    if |t| < |pat| {
      assert u == t;
    } else if t[..|pat|] == pat {
      assert u[0] == rep[0];
    } else {
      assert u == [t[0]] + ReplaceAll(t[1..], pat, rep);
      if |t| >= 2 {
        HeadOfReplace(t[1..], pat, rep);
      }
    }
  }

  /** A kept first character does not begin an "all" with what the
      replacement makes of the rest. */
  lemma NoAllAtKeptHead(s: string, pat: string, rep: string)
    requires |pat| > 0 && NoAllAcross(rep) && !Contains(s, "all")
    requires |s| > 0
    ensures !OccursAt([s[0]] + ReplaceAll(s[1..], pat, rep), 0, "all")
  {
    var r := [s[0]] + ReplaceAll(s[1..], pat, rep);
    if |r| >= 3 {
      OccursAtAll(r, 0);
      if r[0] == 'a' && r[1] == 'l' && r[2] == 'l' {
        HeadPairOfReplace(s[1..], pat, rep);
        OccursAtAll(s, 0);
        assert false;
      }
    }
  }

  /** An "all" of `front + rest` lies in `front`, or starts in `front`, or
      lies in `rest`. */
  lemma NoAllAfterFront(front: string, rest: string)
    requires !Contains(rest, "all")
    requires forall i :: 0 <= i < |front| && i + 3 <= |front + rest| ==> !OccursAt(front + rest, i, "all")
    ensures !Contains(front + rest, "all")
  {
    var r := front + rest;
    forall i | |front| <= i <= |r| - 3
      ensures !OccursAt(r, i, "all")
    {
      assert r[i..i + 3] == rest[i - |front|..i - |front| + 3];
      assert !OccursAt(rest, i - |front|, "all");
    }
  }

  /** Replacing with such a text never creates an "all". */
  lemma {:induction false} ReplaceKeepsAllFree(s: string, pat: string, rep: string)
    requires |pat| > 0 && NoAllAcross(rep)
    requires !Contains(s, "all")
    ensures !Contains(ReplaceAll(s, pat, rep), "all")
    decreases |s|
  {
    if |s| >= |pat| {
      var matched := s[..|pat|] == pat;
      var n := if matched then |pat| else 1;
      assert !Contains(s[n..], "all") by {
        if Contains(s[n..], "all") {
          assert s[n..|s|] == s[n..];
          ContainsInSlice(s, n, |s|, "all");
        }
      }
      ReplaceKeepsAllFree(s[n..], pat, rep);
      var r' := ReplaceAll(s[n..], pat, rep);
      if matched {
        forall i | 0 <= i < |rep| && i + 3 <= |rep + r'|
          ensures !OccursAt(rep + r', i, "all")
        {
          NoAllInReplacement(rep, r', i);
        }
        NoAllAfterFront(rep, r');
      } else {
        NoAllAtKeptHead(s, pat, rep);
        NoAllAfterFront([s[0]], r');
      }
    }
  }

  /** Both intent phrases end in "all", so a list query holds an "all". */
  lemma ListIntentHasAll(prompt: string)
    requires HasListIntent(prompt)
    ensures Contains(Lower(prompt), "all")
  {
    var s := Lower(prompt);
    if Contains(s, "what are all") {
      var i :| 0 <= i <= |s| - 12 && OccursAt(s, i, "what are all");
      assert s[i + 9..i + 12] == s[i..i + 12][9..12] == "all";
      assert OccursAt(s, i + 9, "all");
    } else {
      var i :| 0 <= i <= |s| - 8 && OccursAt(s, i, "list all");
      assert s[i + 5..i + 8] == s[i..i + 8][5..8] == "all";
      assert OccursAt(s, i + 5, "all");
    }
  }

  /** For a list query the column name is derived from the text after the
      last "all" of the lower-cased prompt. */
  lemma ColumnNameAfterLastAll(prompt: string)
    requires HasListIntent(prompt)
    ensures exists k :: && OccursAt(Lower(prompt), k, "all")
                        && !Contains(Lower(prompt)[k + 3..], "all")
                        && DeriveColumnName(prompt) == Singularize(Strip(Lower(prompt)[k + 3..]))
  {
    ListIntentHasAll(prompt);
    LastPieceAfterLast(Lower(prompt), "all");
  }

  /** The derived name never contains "all": the cut is at the last "all",
      and neither stripping nor the two replacements can create one. */
  lemma DerivedNameHasNoAll(prompt: string)
    ensures !Contains(DeriveColumnName(prompt), "all")
  {
    var tail := Last(Split(Lower(prompt), "all"));
    LastPieceFree(Lower(prompt), "all");
    var stripped := Strip(tail);
    if Contains(stripped, "all") {
      StripContains(tail, "all");
    }
    var once := ReplaceAll(stripped, "names", "name");
    ReplaceKeepsAllFree(stripped, "names", "name");
    ReplaceKeepsAllFree(once, "items", "item");
  }

  lemma SingularizeKeepsLowerCase(s: string)
    requires forall c :: c in s ==> !IsUpper(c)
    ensures forall c :: c in Singularize(s) ==> !IsUpper(c)
  {
    ReplaceChars(s, "names", "name");
    ReplaceChars(ReplaceAll(s, "names", "name"), "items", "item");
  }

  /** The derived name holds no upper-case ASCII letter, since the prompt is
      lower-cased before anything else happens. */
  lemma DerivedNameIsLowerCase(prompt: string)
    ensures forall c :: c in DeriveColumnName(prompt) ==> !IsUpper(c)
  {
    var lowered := Lower(prompt);
    var tail := Last(Split(lowered, "all"));
    LastPieceSuffix(lowered, "all");
    var k := |lowered| - |tail|;
    forall c | c in tail
      ensures !IsUpper(c)
    {
      var j :| 0 <= j < |tail| && tail[j] == c;
      assert lowered[k + j] == c;
    }
    StripChars(tail);
    SingularizeKeepsLowerCase(Strip(tail));
  }

  /** The last piece of `head + "all" + tail`, when no "all" starts inside
      `head` and none occurs in `tail`, is `tail`. */
  lemma TailAfterAll(head: string, tail: string)
    requires forall j :: 0 <= j < |head| ==> !OccursAt(head + "all" + tail, j, "all")
    requires !Contains(tail, "all")
    ensures Last(Split(head + "all" + tail, "all")) == tail
  {
    SplitCut(head, "all", tail);
    SplitFree(tail, "all");
  }

  /** No "all" starts within the first nine characters of "what are all item names". */
  lemma ItemNamesHead(prompt: string)
    requires prompt == "what are all item names"
    ensures forall j :: 0 <= j < 9 ==> !OccursAt(prompt, j, "all")
  {
    forall j | 0 <= j < 9
      ensures !OccursAt(prompt, j, "all")
    {
      OccursAtAll(prompt, j);
      assert j in {0, 1, 2, 3, 4, 5, 6, 7, 8};
    }
  }

  /** " item names" holds no "all". */
  lemma ItemNamesNoAll(tail: string)
    requires tail == " item names"
    ensures !Contains(tail, "all")
  {
    forall j | 0 <= j <= |tail| - 3
      ensures !OccursAt(tail, j, "all")
    {
      OccursAtAll(tail, j);
      assert j in {0, 1, 2, 3, 4, 5, 6, 7, 8};
    }
  }

  /** The tail of "what are all item names" is " item names". */
  lemma ItemNamesTail(prompt: string)
    requires prompt == "what are all item names"
    ensures Last(Split(Lower(prompt), "all")) == " item names"
  {
    var head, tail := "what are ", " item names";
    assert forall k | 0 <= k < |prompt| :: (head + "all" + tail)[k] == prompt[k];
    assert prompt == head + "all" + tail;
    LowerOfLowerCase(prompt);
    ItemNamesHead(prompt);
    ItemNamesNoAll(tail);
    TailAfterAll(head, tail);
  }

  /** "item names" singularizes to "item name". */
  lemma SingularizeItemNames(stripped: string)
    requires stripped == "item names"
    ensures Singularize(stripped) == "item name"
  {
    forall j | 0 <= j < 5
      ensures !OccursAt(stripped, j, "names")
    {
      assert j in {0, 1, 2, 3, 4};
      if OccursAt(stripped, j, "names") {
        OccursAtChar(stripped, j, "names", 0);
      }
    }
    ReplaceSkip(stripped, "names", "name", 5);
    assert stripped[5..] == "names";
    var once := "item name";
    assert forall k | 0 <= k < |once| :: (stripped[..5] + "name")[k] == once[k];
    assert ReplaceAll(stripped, "names", "name") == once;
    forall j | 0 <= j <= |once| - 5
      ensures !OccursAt(once, j, "items")
    {
      assert j in {0, 1, 2, 3, 4};
      if OccursAt(once, j, "items") {
        OccursAtChar(once, j, "items", 0);
        OccursAtChar(once, j, "items", 4);
      }
    }
    ReplaceAbsent(once, "items", "item");
  }

  /** "what are all item names" derives "item name", not "item": the
      `"names"` rewrite leaves the word `item` alone. */
  lemma DeriveItemNames(prompt: string)
    requires prompt == "what are all item names"
    ensures DeriveColumnName(prompt) == "item name"
  {
    ItemNamesTail(prompt);
    var word := "item names";
    assert " item names" == [' '] + word;
    StripAfterSpace(' ', word);
    SingularizeItemNames(word);
  }

  /** "List all Items" lower-cases to "list all items". */
  lemma LowerListAllItems(prompt: string)
    requires prompt == "List all Items"
    ensures Lower(prompt) == "list all items"
  {
    var lowered := "list all items";
    forall k | 0 <= k < |prompt|
      ensures LowerChar(prompt[k]) == lowered[k]
    {
      assert k in {0, 1, 2, 3, 4, 5, 6, 7, 8, 9, 10, 11, 12, 13};
    }
    assert forall k | 0 <= k < |prompt| :: Lower(prompt)[k] == lowered[k];
  }

  /** No "all" starts within the first five characters of "list all items". */
  lemma ListAllHead(lowered: string)
    requires lowered == "list all items"
    ensures forall j :: 0 <= j < 5 ==> !OccursAt(lowered, j, "all")
  {
    forall j | 0 <= j < 5
      ensures !OccursAt(lowered, j, "all")
    {
      OccursAtAll(lowered, j);
      assert j in {0, 1, 2, 3, 4};
    }
  }

  /** " items" holds no "all". */
  lemma ItemsNoAll(tail: string)
    requires tail == " items"
    ensures !Contains(tail, "all")
  {
    forall j | 0 <= j <= |tail| - 3
      ensures !OccursAt(tail, j, "all")
    {
      OccursAtAll(tail, j);
      assert j in {0, 1, 2, 3};
    }
  }

  /** The tail of "List all Items" is " items". */
  lemma ListAllItemsTail(prompt: string)
    requires prompt == "List all Items"
    ensures Last(Split(Lower(prompt), "all")) == " items"
  {
    LowerListAllItems(prompt);
    var head, tail := "list ", " items";
    var lowered := head + "all" + tail;
    assert Lower(prompt) == lowered by {
      assert forall k | 0 <= k < |lowered| :: lowered[k] == "list all items"[k];
    }
    ListAllHead(lowered);
    ItemsNoAll(tail);
    TailAfterAll(head, tail);
  }

  /** "items" singularizes to "item". */
  lemma SingularizeItems(stripped: string)
    requires stripped == "items"
    ensures Singularize(stripped) == "item"
  {
    if Contains(stripped, "names") {
      var j :| 0 <= j <= |stripped| - 5 && OccursAt(stripped, j, "names");
      OccursAtChar(stripped, j, "names", 0);
    }
    ReplaceAbsent(stripped, "names", "name");
  }

  /** "List all Items" derives "item". */
  lemma DeriveListAllItems(prompt: string)
    requires prompt == "List all Items"
    ensures DeriveColumnName(prompt) == "item"
  {
    ListAllItemsTail(prompt);
    var word := "items";
    assert " items" == [' '] + word;
    StripAfterSpace(' ', word);
    SingularizeItems(word);
  }

  // ---------------------------------------------------------------------------
  // Distinct values: pandas `Series.unique()`
  // ---------------------------------------------------------------------------

  /** Position of the first occurrence of `x` in `xs`. */
  function FirstIndex(xs: seq<string>, x: string): (k: nat)
    requires x in xs
    ensures k < |xs| && xs[k] == x && x !in xs[..k]
  {
    if xs[0] == x then 0 else 1 + FirstIndex(xs[1..], x)
  }

  lemma {:induction false} FirstIndexInPrefix(xs: seq<string>, n: nat, x: string)
    requires n <= |xs| && x in xs[..n]
    ensures FirstIndex(xs, x) == FirstIndex(xs[..n], x)
    decreases n
  {
    if xs[0] != x {
      assert xs[..n][1..] == xs[1..][..n - 1];
      FirstIndexInPrefix(xs[1..], n - 1, x);
    }
  }

  /** Appending a value to `xs[..n]` leaves the first positions of the values
      already there unchanged, and a new value first occurs at the end. */
  lemma FirstIndexOfLast(xs: seq<string>)
    requires |xs| > 0
    ensures var n := |xs| - 1;
      && (forall y :: y in xs[..n] ==> FirstIndex(xs, y) == FirstIndex(xs[..n], y))
      && (xs[n] !in xs[..n] ==> FirstIndex(xs, xs[n]) == n)
  {
    var n := |xs| - 1;
    forall y | y in xs[..n]
      ensures FirstIndex(xs, y) == FirstIndex(xs[..n], y)
    {
      FirstIndexInPrefix(xs, n, y);
    }
    if xs[n] !in xs[..n] {
      forall i | 0 <= i < n
        ensures xs[i] != xs[n]
      {
        assert xs[..n][i] == xs[i];
      }
    }
  }

  /** The values of `xs` without repeats: the same values, none twice. Each
      value is kept at the place of its first occurrence (`UniqueOrder`). */
  function Unique(xs: seq<string>): (r: seq<string>)
    ensures forall x :: x in r <==> x in xs
    ensures forall i, j :: 0 <= i < j < |r| ==> r[i] != r[j]
    decreases |xs|
  {
    if xs == [] then []
    else
      var n := |xs| - 1;
      var init := Unique(xs[..n]);
      if xs[n] in init then init else init + [xs[n]]
  }

  /** The distinct values come in the order of their first occurrences. */
  lemma {:induction false} UniqueOrder(xs: seq<string>)
    ensures forall i, j :: 0 <= i < j < |Unique(xs)| ==>
      FirstIndex(xs, Unique(xs)[i]) < FirstIndex(xs, Unique(xs)[j])
    decreases |xs|
  {
    if xs != [] {
      var n := |xs| - 1;
      var u := Unique(xs[..n]);
      UniqueOrder(xs[..n]);
      FirstIndexOfLast(xs);
      var r := Unique(xs);
      forall i, j | 0 <= i < j < |r|
        ensures FirstIndex(xs, r[i]) < FirstIndex(xs, r[j])
      {
        assert r[i] == u[i] && r[i] in u;
        if j < |u| {
          assert r[j] == u[j] && r[j] in u;
        } else {
          assert r[j] == xs[n] && xs[n] !in xs[..n];
        }
      }
    }
  }

  /** A sequence without repeats is its own list of distinct values. */
  lemma {:induction false} UniqueOfDistinct(xs: seq<string>)
    requires forall i, j :: 0 <= i < j < |xs| ==> xs[i] != xs[j]
    ensures Unique(xs) == xs
    decreases |xs|
  {
    if xs != [] {
      var n := |xs| - 1;
      var init := xs[..n];
      assert forall i, j :: 0 <= i < j < |init| ==> init[i] != init[j] by {
        forall i, j | 0 <= i < j < |init|
          ensures init[i] != init[j]
        {
          assert init[i] == xs[i] && init[j] == xs[j];
        }
      }
      UniqueOfDistinct(init);
      assert xs[n] !in init by {
        forall i | 0 <= i < n
          ensures init[i] != xs[n]
        {
          assert init[i] == xs[i];
        }
      }
      assert Unique(xs) == Unique(init) + [xs[n]];
      assert init + [xs[n]] == xs;
    }
  }


  // ---------------------------------------------------------------------------
  // Routing
  // ---------------------------------------------------------------------------

  /** The columns called `name`, in dataset order: `df[name]`. */
  function ColumnsNamed(ds: seq<Column>, name: string): seq<Column>
  {
    if ds == [] then []
    else (if ds[0].name == name then [ds[0]] else []) + ColumnsNamed(ds[1..], name)
  }

  /** The direct lookup: taken only for a list-intent prompt whose derived
      name selects exactly one column (`in df.columns` fails for no column;
      for two or more `df[name]` is a frame without `unique`, so the lookup
      raises and the inner handler falls through). */
  function DirectLookup(ds: seq<Column>, prompt: string): Option<seq<string>>
  {
    if !HasListIntent(prompt) then None
    else
      var named := ColumnsNamed(ds, DeriveColumnName(prompt));
      if |named| == 1 then Some(Unique(named[0].values)) else None
  }

  /** `format_response(pandas_ai.chat(prompt))`, with a raised exception
      turned into the error line of the outer handler. */
  function FromAgent(reply: AgentReply): Display
  {
    match reply
    case Answered(result) => Format(result)
    case Raised(message) => Markdown(ErrorPrefix + message)
  }

  /** `chat_with_csv(df, prompt)`. */
  function ChatWithCsv(ds: seq<Column>, prompt: string, agent: Agent): Display
  {
    match agent
    case Unavailable(message) => Markdown(ErrorPrefix + message)
    case Ready(chat) =>
      match DirectLookup(ds, prompt)
      case Some(values) => Format(Items(values))
      case None => FromAgent(chat(prompt))
  }

  lemma {:induction false} ColumnsNamedNone(ds: seq<Column>, name: string)
    requires forall i :: 0 <= i < |ds| ==> ds[i].name != name
    ensures ColumnsNamed(ds, name) == []
    decreases |ds|
  {
    if ds != [] {
      ColumnsNamedNone(ds[1..], name);
    }
  }

  lemma {:induction false} ColumnsNamedOne(ds: seq<Column>, k: nat)
    requires k < |ds|
    requires forall i :: 0 <= i < |ds| && i != k ==> ds[i].name != ds[k].name
    ensures ColumnsNamed(ds, ds[k].name) == [ds[k]]
    decreases |ds|
  {
    if k == 0 {
      ColumnsNamedNone(ds[1..], ds[0].name);
    } else {
      ColumnsNamedOne(ds[1..], k - 1);
    }
  }

  lemma {:induction false} ColumnsNamedTwo(ds: seq<Column>, i: nat, j: nat)
    requires i < j < |ds| && ds[i].name == ds[j].name
    ensures |ColumnsNamed(ds, ds[i].name)| >= 2
    decreases |ds|
  {
    var name := ds[i].name;
    if i == 0 {
      var k := j - 1;
      assert ds[1..][k] == ds[j];
      ColumnsNamedAtLeastOne(ds[1..], k);
    } else {
      ColumnsNamedTwo(ds[1..], i - 1, j - 1);
    }
  }

  lemma {:induction false} ColumnsNamedAtLeastOne(ds: seq<Column>, k: nat)
    requires k < |ds|
    ensures |ColumnsNamed(ds, ds[k].name)| >= 1
    decreases |ds|
  {
    if k > 0 {
      ColumnsNamedAtLeastOne(ds[1..], k - 1);
    }
  }

  lemma {:induction false} ColumnsNamedMembers(ds: seq<Column>, name: string)
    ensures forall c :: c in ColumnsNamed(ds, name) ==> c in ds && c.name == name
    decreases |ds|
  {
    if ds != [] {
      ColumnsNamedMembers(ds[1..], name);
    }
  }

  /** Every answer from a ready agent is the agent's reply, formatted, or,
      for a list-intent prompt only, the distinct values of a column whose
      name is the derived name. */
  lemma AnswerSources(ds: seq<Column>, prompt: string, chat: string -> AgentReply)
    ensures
      || ChatWithCsv(ds, prompt, Ready(chat)) == FromAgent(chat(prompt))
      || (&& HasListIntent(prompt)
          && exists k :: 0 <= k < |ds| && ds[k].name == DeriveColumnName(prompt)
                         && ChatWithCsv(ds, prompt, Ready(chat)) == Format(Items(Unique(ds[k].values))))
  {
    var lookup := DirectLookup(ds, prompt);
    if lookup.Some? {
      var named := ColumnsNamed(ds, DeriveColumnName(prompt));
      ColumnsNamedMembers(ds, DeriveColumnName(prompt));
      assert named[0] in named;
      var k :| 0 <= k < |ds| && ds[k] == named[0];
    }
  }

  /** The error raised while the agent is being built wins over everything:
      the prompt is never looked at, not even for a direct lookup. */
  lemma SetupFailureComesFirst(ds: seq<Column>, prompt: string, message: string)
    ensures ChatWithCsv(ds, prompt, Unavailable(message)) == Markdown("Error processing query: " + message)
  {
  }

  /** Without "what are all" or "list all" the agent answers. */
  lemma NoListIntentAsksAgent(ds: seq<Column>, prompt: string, chat: string -> AgentReply)
    requires !HasListIntent(prompt)
    ensures ChatWithCsv(ds, prompt, Ready(chat)) == FromAgent(chat(prompt))
  {
  }

  /** A list-intent prompt whose derived name is exactly one column's name is
      answered with that column's distinct values, in first-occurrence order,
      one bullet line each, whatever the agent would have said. */
  lemma DirectLookupAnswers(ds: seq<Column>, prompt: string, k: nat,
                            chat: string -> AgentReply, other: string -> AgentReply)
    requires HasListIntent(prompt)
    requires k < |ds| && ds[k].name == DeriveColumnName(prompt)
    requires forall i :: 0 <= i < |ds| && i != k ==> ds[i].name != ds[k].name
    ensures ChatWithCsv(ds, prompt, Ready(chat)) == Format(Items(Unique(ds[k].values)))
    ensures ChatWithCsv(ds, prompt, Ready(chat)) == ChatWithCsv(ds, prompt, Ready(other))
  {
    ColumnsNamedOne(ds, k);
  }

  /** The text of a direct answer, read back line by line, is one `"- "`
      line per distinct value (when no value holds a line break). */
  lemma DirectAnswerLines(ds: seq<Column>, prompt: string, k: nat, chat: string -> AgentReply)
    requires HasListIntent(prompt)
    requires k < |ds| && ds[k].name == DeriveColumnName(prompt)
    requires forall i :: 0 <= i < |ds| && i != k ==> ds[i].name != ds[k].name
    requires |ds[k].values| > 0
    requires forall i :: 0 <= i < |ds[k].values| ==> '\n' !in ds[k].values[i]
    ensures ChatWithCsv(ds, prompt, Ready(chat)).Markdown?
    ensures Split(ChatWithCsv(ds, prompt, Ready(chat)).text, "\n") == BulletLines(Unique(ds[k].values))
  {
    var vs := ds[k].values;
    var u := Unique(vs);
    DirectLookupAnswers(ds, prompt, k, chat, chat);
    assert vs[0] in u;
    forall i | 0 <= i < |u|
      ensures '\n' !in u[i]
    {
      assert u[i] in u;
      assert u[i] in vs;
      var j :| 0 <= j < |vs| && vs[j] == u[i];
    }
    ItemsAreBulletLines(u);
  }

  /** When no column has the derived name, the agent answers; its failure
      becomes the error line. */
  lemma UnknownColumnAsksAgent(ds: seq<Column>, prompt: string, chat: string -> AgentReply)
    requires forall i :: 0 <= i < |ds| ==> ds[i].name != DeriveColumnName(prompt)
    ensures ChatWithCsv(ds, prompt, Ready(chat)) == FromAgent(chat(prompt))
    ensures chat(prompt).Raised? ==>
      ChatWithCsv(ds, prompt, Ready(chat)) == Markdown("Error processing query: " + chat(prompt).message)
    ensures chat(prompt).Answered? ==>
      ChatWithCsv(ds, prompt, Ready(chat)) == Format(chat(prompt).result)
  {
    ColumnsNamedNone(ds, DeriveColumnName(prompt));
  }

  /** Two columns sharing the derived name make the lookup fail, so the
      agent answers. */
  lemma DuplicateColumnAsksAgent(ds: seq<Column>, prompt: string, i: nat, j: nat,
                                 chat: string -> AgentReply)
    requires i < j < |ds| && ds[i].name == ds[j].name == DeriveColumnName(prompt)
    ensures ChatWithCsv(ds, prompt, Ready(chat)) == FromAgent(chat(prompt))
  {
    ColumnsNamedTwo(ds, i, j);
  }

  /** A column whose name has an upper-case letter, or contains "all", is
      never reached by the direct lookup. */
  lemma UnreachableColumnNames(prompt: string, name: string)
    requires (exists c :: c in name && IsUpper(c)) || Contains(name, "all")
    ensures DeriveColumnName(prompt) != name
  {
    DerivedNameIsLowerCase(prompt);
    DerivedNameHasNoAll(prompt);
  }

  /** A dataset whose every column name has an upper-case letter or contains
      "all" always sends the prompt to the agent. */
  lemma UnreachableDatasetAsksAgent(ds: seq<Column>, prompt: string, chat: string -> AgentReply)
    requires forall i :: 0 <= i < |ds| ==>
      (exists c :: c in ds[i].name && IsUpper(c)) || Contains(ds[i].name, "all")
    ensures ChatWithCsv(ds, prompt, Ready(chat)) == FromAgent(chat(prompt))
  {
    forall i | 0 <= i < |ds|
      ensures ds[i].name != DeriveColumnName(prompt)
    {
      UnreachableColumnNames(prompt, ds[i].name);
    }
    UnknownColumnAsksAgent(ds, prompt, chat);
  }

  // ---------------------------------------------------------------------------
  // Worked examples on a dataset with columns `item` and `price`
  // ---------------------------------------------------------------------------

  /** "what are all item names" asks for the column "item name", which the
      dataset lacks, so the agent answers. */
  lemma ItemNamesAsksAgent(ds: seq<Column>, prompt: string, chat: string -> AgentReply)
    requires |ds| == 2 && ds[0].name == "item" && ds[1].name == "price"
    requires prompt == "what are all item names"
    ensures ChatWithCsv(ds, prompt, Ready(chat)) == FromAgent(chat(prompt))
  {
    DeriveItemNames(prompt);
    var name := DeriveColumnName(prompt);
    forall i | 0 <= i < |ds|
      ensures ds[i].name != name
    {
      assert |name| == 9 && |ds[i].name| < 9;
    }
    UnknownColumnAsksAgent(ds, prompt, chat);
  }

  lemma ListAllItemsHasIntent(prompt: string)
    requires prompt == "List all Items"
    ensures HasListIntent(prompt)
  {
    var lowered := Lower(prompt);
    LowerListAllItems(prompt);
    assert lowered[0..8] == "list all";
    assert OccursAt(lowered, 0, "list all");
  }

  lemma UniqueItems(values: seq<string>)
    requires values == ["apple", "pear", "apple"]
    ensures Unique(values) == ["apple", "pear"]
  {
    var init := values[..2];
    assert init == ["apple", "pear"];
    assert init[0] != init[1] by {
      assert init[0][0] != init[1][0];
    }
    UniqueOfDistinct(init);
    assert values[2] in init by {
      assert values[2] == init[0];
    }
  }

  lemma BulletItems(items: seq<string>)
    requires items == ["apple", "pear"]
    ensures Format(Items(items)) == Markdown("- apple\n- pear")
  {
    var lines := BulletLines(items);
    assert lines[0] == "- apple" && lines[1] == "- pear";
    assert lines[1..] == ["- pear"];
    assert Join(lines, "\n") == "- apple" + "\n" + "- pear";
  }

  /** "List all Items" lists the distinct items, without the agent. */
  lemma ListAllItemsAnswersDirectly(ds: seq<Column>, prompt: string, chat: string -> AgentReply)
    requires ds == [Column("item", ["apple", "pear", "apple"]), Column("price", ["1", "2", "1"])]
    requires prompt == "List all Items"
    ensures ChatWithCsv(ds, prompt, Ready(chat)) == Markdown("- apple\n- pear")
  {
    ListAllItemsHasIntent(prompt);
    DeriveListAllItems(prompt);
    DirectLookupAnswers(ds, prompt, 0, chat, chat);
    UniqueItems(ds[0].values);
    BulletItems(Unique(ds[0].values));
  }
}
