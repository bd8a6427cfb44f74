/** The content transformations of lib/zshrcEditor.ts, as functions of the text
    of `~/.zshrc`: the overwrite-or-append of `addAlias`, the line blanking of
    `removeAlias` and the scan of `listAliases`. A regular expression compiled
    with the `m` flag is read as a predicate on single lines; `LineLocal` says
    for which files that reading is exact. */
module AliasText {
  import opened Text
  import opened Constants

  datatype Option<T> = None | Some(value: T)

  /** One entry of the listing: a name and its command. */
  datatype Alias = Alias(name: string, command: string)

  /** `alias ${alias}='${command}'` */
  function NewLine(name: string, command: string): string {
    "alias " + name + "='" + command + "'"
  }

  // ---------------------------------------------------------------------------
  // Where the line-level reading of the patterns is exact

  /** A line on which `\s+` or `[^=]+` of the alias patterns would run on into the
      next line: `alias` followed by nothing, or by white space, and no `=`. */
  predicate IsOpenAliasLine(line: string) {
    |line| >= 5 && line[..5] == "alias" && (|line| == 5 || IsSpace(line[5])) && '=' !in line
  }

  /** No line terminator at all: neither `\n` nor one of the others. */
  predicate SingleLine(s: string) {
    '\n' !in s && '\r' !in s && '\U{2028}' !in s && '\U{2029}' !in s
  }

  predicate PlainLine(line: string) {
    SingleLine(line) && !IsOpenAliasLine(line)
  }

  /** A file whose only line terminator is `\n` and that has no open alias line. */
  predicate LineLocal(content: string) {
    AllPlain(Lines(content))
  }

  predicate AllPlain(ls: seq<string>) {
    forall j :: 0 <= j < |ls| ==> PlainLine(ls[j])
  }

  /** Arguments whose new line is one plain line that `replace` copies verbatim. */
  predicate PlainArguments(name: string, command: string) {
    SingleLine(name) && SingleLine(command) && '$' !in name && '$' !in command
  }

  lemma PlainNewLine(name: string, command: string)
    requires PlainArguments(name, command)
    ensures SingleLine(NewLine(name, command)) && '$' !in NewLine(name, command)
  {
  }

  // ---------------------------------------------------------------------------
  // Finding a definition

  /** The first line that `^alias\s+<name>=.*$` matches, or `|ls|` when none does:
      a non-global `test` or `replace` acts on the leftmost match. */
  function FirstDefinition(ls: seq<string>, name: string): (i: nat)
    ensures i <= |ls|
    ensures i < |ls| ==> DefinesAlias(ls[i], name)
    ensures forall j {:trigger DefinesAlias(ls[j], name)} :: 0 <= j < i ==> !DefinesAlias(ls[j], name)
    decreases |ls|
  {
    if ls == [] then 0
    else if DefinesAlias(ls[0], name) then 0
    else 1 + FirstDefinition(ls[1..], name)
  }

  /** The number of lines that define `name`. */
  function CountDefinitions(ls: seq<string>, name: string): nat
    decreases |ls|
  {
    if ls == [] then 0
    else (if DefinesAlias(ls[0], name) then 1 else 0) + CountDefinitions(ls[1..], name)
  }

  lemma {:induction false} CountConcat(a: seq<string>, b: seq<string>, name: string)
    ensures CountDefinitions(a + b, name) == CountDefinitions(a, name) + CountDefinitions(b, name)
    decreases |a|
  {
    if a == [] {
      assert a + b == b;
    } else {
      assert (a + b)[1..] == a[1..] + b;
      CountConcat(a[1..], b, name);
    }
  }

  /** Some line defines `name` exactly when the count of definitions is positive. */
  lemma {:induction false} FirstDefinitionIffCounted(ls: seq<string>, name: string)
    ensures FirstDefinition(ls, name) < |ls| <==> CountDefinitions(ls, name) > 0
    decreases |ls|
  {
    if ls != [] && !DefinesAlias(ls[0], name) {
      FirstDefinitionIffCounted(ls[1..], name);
    }
  }

  /** The line `addAlias` writes defines the name it was given. */
  lemma NewLineDefines(name: string, command: string)
    ensures DefinesAlias(NewLine(name, command), name)
  {
    var line := NewLine(name, command);
    assert line[..5] == "alias" && line[5] == ' ';
    assert line[6..] == name + "=" + "'" + command + "'";
  }

  // ---------------------------------------------------------------------------
  // String.prototype.replace

  /** The replacement text `replace` inserts for a replacement string `r` when the
      pattern has no capture groups: `$$` gives `$`, `$&` the matched text, `` $` ``
      the text before the match, `$'` the text after it; every other character,
      and a `$` before any other character, stands for itself. */
  function Expand(r: string, matched: string, before: string, after: string): (e: string)
    ensures '$' !in r ==> e == r
    decreases |r|
  {
    if r == [] then ""
    else if r[0] == '$' && |r| >= 2 && r[1] == '$' then "$" + Expand(r[2..], matched, before, after)
    else if r[0] == '$' && |r| >= 2 && r[1] == '&' then matched + Expand(r[2..], matched, before, after)
    else if r[0] == '$' && |r| >= 2 && r[1] == '`' then before + Expand(r[2..], matched, before, after)
    else if r[0] == '$' && |r| >= 2 && r[1] == '\'' then after + Expand(r[2..], matched, before, after)
    else [r[0]] + Expand(r[1..], matched, before, after)
  }

  /** A `$$` in the replacement comes out as a single `$`. */
  lemma {:induction false} ExpandDoubleDollar(x: string, y: string, matched: string, before: string, after: string)
    requires '$' !in x && '$' !in y
    ensures Expand(x + "$$" + y, matched, before, after) == x + "$" + y
    decreases |x|
  {
    if x == [] {
      assert (x + "$$" + y)[2..] == y;
    } else {
      assert (x + "$$" + y)[1..] == x[1..] + "$$" + y;
      ExpandDoubleDollar(x[1..], y, matched, before, after);
      assert [x[0]] + (x[1..] + "$" + y) == x + "$" + y;
    }
  }

  /** `content.replace(regex, r)` when the leftmost match of `regex` is line `i`. */
  function ReplaceLineAt(ls: seq<string>, i: nat, r: string): string
    requires i < |ls|
  {
    Before(ls, i) + Expand(r, ls[i], Before(ls, i), After(ls, i)) + After(ls, i)
  }

  /** A replacement without `$` and `\n` takes the place of line `i` and no other. */
  lemma ReplaceLineVerbatim(ls: seq<string>, i: nat, r: string)
    requires i < |ls| && NoNewlines(ls)
    requires '$' !in r && '\n' !in r
    ensures Lines(ReplaceLineAt(ls, i, r)) == ls[..i] + [r] + ls[i + 1..]
  {
    var ls' := ls[..i] + [r] + ls[i + 1..];
    assert ls'[..i] == ls[..i];
    assert ls'[i + 1..] == ls[i + 1..];
    JoinSplitAt(ls', i);
    LinesJoin(ls');
  }

  // ---------------------------------------------------------------------------
  // Facts about one line replaced

  lemma FirstDefinitionIs(ls: seq<string>, name: string, i: nat)
    requires i <= |ls|
    requires i < |ls| ==> DefinesAlias(ls[i], name)
    requires forall j :: 0 <= j < i ==> !DefinesAlias(ls[j], name)
    ensures FirstDefinition(ls, name) == i
  {
  }

  /** Putting a definition of `name` in place of the first one keeps it first. */
  lemma FirstDefinitionOfReplaced(ls: seq<string>, name: string, x: string)
    requires FirstDefinition(ls, name) < |ls| && DefinesAlias(x, name)
    ensures var i := FirstDefinition(ls, name);
      FirstDefinition(ls[..i] + [x] + ls[i + 1..], name) == i && (ls[..i] + [x] + ls[i + 1..])[i] == x
  {
    var i := FirstDefinition(ls, name);
    var ls' := ls[..i] + [x] + ls[i + 1..];
    assert forall j :: 0 <= j < i ==> ls'[j] == ls[j];
    FirstDefinitionIs(ls', name, i);
  }

  /** A definition of `name` appended after lines without one is the first. */
  lemma FirstDefinitionOfAppended(ls: seq<string>, name: string, x: string)
    requires FirstDefinition(ls, name) == |ls| && DefinesAlias(x, name)
    ensures FirstDefinition(ls + [x], name) == |ls| && (ls + [x])[|ls|] == x
  {
    assert forall j :: 0 <= j < |ls| ==> (ls + [x])[j] == ls[j];
    FirstDefinitionIs(ls + [x], name, |ls|);
  }

  lemma Unreplace(ls: seq<string>, i: nat)
    requires i < |ls|
    ensures ls == ls[..i] + [ls[i]] + ls[i + 1..]
  {
  }

  lemma CountReplaced(ls: seq<string>, i: nat, x: string, name: string)
    requires i < |ls|
    ensures CountDefinitions(ls[..i] + [x] + ls[i + 1..], name) + CountDefinitions([ls[i]], name)
            == CountDefinitions(ls, name) + CountDefinitions([x], name)
  {
    Unreplace(ls, i);
    CountConcat(ls[..i] + [ls[i]], ls[i + 1..], name);
    CountConcat(ls[..i], [ls[i]], name);
    CountConcat(ls[..i] + [x], ls[i + 1..], name);
    CountConcat(ls[..i], [x], name);
  }

  lemma CountOne(x: string, name: string)
    ensures CountDefinitions([x], name) == if DefinesAlias(x, name) then 1 else 0
  {
    assert [x][1..] == [];
  }

  // ---------------------------------------------------------------------------
  // addAlias: overwrite the first definition, or append

  /** The text `addAlias(name, command)` writes back: the first line defining
      `name` replaced by the new line, or the new line appended after a `\n`. */
  function Upsert(content: string, name: string, command: string): string {
    var ls := Lines(content);
    var i := FirstDefinition(ls, name);
    if i < |ls| then ReplaceLineAt(ls, i, NewLine(name, command))
    else content + "\n" + NewLine(name, command)
  }

  /** Append branch: with no definition of `name`, the old text is kept as it is
      and the new line comes after it, on lines of its own. */
  lemma UpsertAppends(content: string, name: string, command: string)
    requires FirstDefinition(Lines(content), name) == |Lines(content)|
    ensures Upsert(content, name, command)[..|content|] == content
    ensures Lines(Upsert(content, name, command)) == Lines(content) + Lines(NewLine(name, command))
  {
    LinesAppend(content, NewLine(name, command));
  }

  /** Overwrite branch: the first line defining `name` becomes the new line; every
      other line, later definitions of `name` included, stays as it was. */
  lemma UpsertOverwrites(content: string, name: string, command: string)
    requires PlainArguments(name, command)
    requires FirstDefinition(Lines(content), name) < |Lines(content)|
    ensures var ls, i := Lines(content), FirstDefinition(Lines(content), name);
      Lines(Upsert(content, name, command)) == ls[..i] + [NewLine(name, command)] + ls[i + 1..]
  {
    var ls, i := Lines(content), FirstDefinition(Lines(content), name);
    assert Upsert(content, name, command) == ReplaceLineAt(ls, i, NewLine(name, command));
    LinesHaveNoNewline(content);
    NewLineVerbatim(ls, i, name, command);
  }

  lemma NewLineVerbatim(ls: seq<string>, i: nat, name: string, command: string)
    requires i < |ls| && NoNewlines(ls) && PlainArguments(name, command)
    ensures Lines(ReplaceLineAt(ls, i, NewLine(name, command))) == ls[..i] + [NewLine(name, command)] + ls[i + 1..]
  {
    PlainNewLine(name, command);
    ReplaceLineVerbatim(ls, i, NewLine(name, command));
  }

  /** The lines after `addAlias` succeeds, in both branches. */
  lemma UpsertLines(content: string, name: string, command: string)
    requires PlainArguments(name, command)
    ensures var ls, i := Lines(content), FirstDefinition(Lines(content), name);
      Lines(Upsert(content, name, command))
        == if i < |ls| then ls[..i] + [NewLine(name, command)] + ls[i + 1..]
           else ls + [NewLine(name, command)]
  {
    var ls, i := Lines(content), FirstDefinition(Lines(content), name);
    if i < |ls| {
      UpsertOverwrites(content, name, command);
    } else {
      UpsertAppends(content, name, command);
      PlainNewLine(name, command);
      LinesOfOneLine(NewLine(name, command));
    }
  }

  /** The overwrite branch passes the new line through `replace`'s `$` patterns: a
      `$$` in the command is written as `$`, where the append branch writes `$$`. */
  lemma UpsertCollapsesDoubleDollar(content: string, name: string, x: string, y: string)
    requires '$' !in name && '$' !in x && '$' !in y
    requires FirstDefinition(Lines(content), name) < |Lines(content)|
    ensures var ls, i := Lines(content), FirstDefinition(Lines(content), name);
      Upsert(content, name, x + "$$" + y)
        == Before(ls, i) + NewLine(name, x + "$" + y) + After(ls, i)
  {
    var ls, i := Lines(content), FirstDefinition(Lines(content), name);
    assert NewLine(name, x + "$$" + y) == ("alias " + name + "='" + x) + "$$" + (y + "'");
    assert NewLine(name, x + "$" + y) == ("alias " + name + "='" + x) + "$" + (y + "'");
    ExpandDoubleDollar("alias " + name + "='" + x, y + "'", ls[i], Before(ls, i), After(ls, i));
  }

  /** After `addAlias`, the new line is the first definition of `name`. */
  lemma UpsertFirstDefinition(content: string, name: string, command: string)
    requires PlainArguments(name, command)
    ensures var ls1 := Lines(Upsert(content, name, command));
      FirstDefinition(ls1, name) < |ls1| && ls1[FirstDefinition(ls1, name)] == NewLine(name, command)
  {
    var ls, i := Lines(content), FirstDefinition(Lines(content), name);
    var nl := NewLine(name, command);
    UpsertLines(content, name, command);
    NewLineDefines(name, command);
    if i < |ls| {
      FirstDefinitionOfReplaced(ls, name, nl);
    } else {
      FirstDefinitionOfAppended(ls, name, nl);
    }
  }

  /** Adding the same alias twice leaves the file as adding it once. */
  lemma UpsertIdempotent(content: string, name: string, command: string)
    requires PlainArguments(name, command)
    ensures Upsert(Upsert(content, name, command), name, command) == Upsert(content, name, command)
  {
    var once := Upsert(content, name, command);
    var twice := Upsert(once, name, command);
    UpsertFirstDefinition(content, name, command);
    Unreplace(Lines(once), FirstDefinition(Lines(once), name));
    UpsertOverwrites(once, name, command);
    assert Lines(twice) == Lines(once);
    JoinLines(once);
    JoinLines(twice);
  }

  /** `addAlias` leaves exactly one definition of `name` when there was at most one,
      and otherwise as many as there were. */
  lemma UpsertCountsOneDefinition(content: string, name: string, command: string)
    requires PlainArguments(name, command)
    ensures var n := CountDefinitions(Lines(content), name);
      CountDefinitions(Lines(Upsert(content, name, command)), name) == if n == 0 then 1 else n
  {
    var nl := NewLine(name, command);
    var ls, i := Lines(content), FirstDefinition(Lines(content), name);
    UpsertLines(content, name, command);
    NewLineDefines(name, command);
    FirstDefinitionIffCounted(ls, name);
    CountOne(nl, name);
    if i < |ls| {
      CountOne(ls[i], name);
      CountReplaced(ls, i, nl, name);
    } else {
      CountConcat(ls, [nl], name);
    }
  }

  // ---------------------------------------------------------------------------
  // removeAlias: blank the first definition

  /** `content.replace(regex, '')`: the first line defining `name` emptied. */
  function RemoveFirst(content: string, name: string): string {
    var ls := Lines(content);
    var i := FirstDefinition(ls, name);
    if i < |ls| then ReplaceLineAt(ls, i, "") else content
  }

  /** The first definition becomes an empty line; the number of lines and every
      other line stay as they were. */
  lemma RemoveBlanksLine(content: string, name: string)
    requires FirstDefinition(Lines(content), name) < |Lines(content)|
    ensures var ls, i := Lines(content), FirstDefinition(Lines(content), name);
      Lines(RemoveFirst(content, name)) == ls[..i] + [""] + ls[i + 1..]
  {
    var ls, i := Lines(content), FirstDefinition(Lines(content), name);
    assert RemoveFirst(content, name) == ReplaceLineAt(ls, i, "");
    LinesHaveNoNewline(content);
    ReplaceLineVerbatim(ls, i, "");
  }

  /** Removing drops exactly one definition of `name`; so after removing a name
      defined once, no line defines it. */
  lemma RemoveCountsOneLess(content: string, name: string)
    requires CountDefinitions(Lines(content), name) > 0
    ensures CountDefinitions(Lines(RemoveFirst(content, name)), name)
            == CountDefinitions(Lines(content), name) - 1
  {
    var ls := Lines(content);
    var i := FirstDefinition(ls, name);
    CountFirstBlanked(ls, name);
    assert i < |ls|;
    RemoveBlanksLine(content, name);
    assert Lines(RemoveFirst(content, name)) == ls[..i] + [""] + ls[i + 1..];
  }

  lemma CountFirstBlanked(ls: seq<string>, name: string)
    requires CountDefinitions(ls, name) > 0
    ensures var i := FirstDefinition(ls, name);
      i < |ls| && CountDefinitions(ls[..i] + [""] + ls[i + 1..], name) == CountDefinitions(ls, name) - 1
  {
    FirstDefinitionIffCounted(ls, name);
    CountBlanked(ls, FirstDefinition(ls, name), name);
  }

  lemma CountBlanked(ls: seq<string>, i: nat, name: string)
    requires i < |ls| && DefinesAlias(ls[i], name)
    ensures CountDefinitions(ls[..i] + [""] + ls[i + 1..], name) == CountDefinitions(ls, name) - 1
  {
    CountOne(ls[i], name);
    CountOne("", name);
    CountReplaced(ls, i, "", name);
  }

  // ---------------------------------------------------------------------------
  // listAliases: /^alias\s+([^=]+)=['"]?(.*?)['"]?$/gm

  predicate IsQuote(c: char) {
    c == '\'' || c == '"'
  }

  /** The leading `['"]?` */
  function DropOpeningQuote(s: string): string {
    if |s| > 0 && IsQuote(s[0]) then s[1..] else s
  }

  /** The lazy `(.*?)` followed by `['"]?$`: a final quote is left out of the group. */
  function DropClosingQuote(s: string): string {
    if |s| > 0 && IsQuote(s[|s| - 1]) then s[..|s| - 1] else s
  }

  /** The match of the listing pattern on one line, with both groups trimmed.
      `\s+` takes at least one space after `alias`, `[^=]+` at least one character,
      so the first `=` must come at index 7 or later. */
  function ParseAliasLine(line: string): Option<Alias> {
    if |line| > 5 && line[..5] == "alias" && IsSpace(line[5]) then
      var e := IndexOf(line, '=');
      if 7 <= e < |line| then Some(EntryAt(line, e)) else None
    else None
  }

  /** The two groups of the listing pattern when the first `=` is at index `e`:
      the name between `alias` and `=`, the command after it, both trimmed. */
  function EntryAt(line: string, e: nat): Alias
    requires 5 <= e < |line|
  {
    Alias(Trim(line[5..e]), Trim(DropClosingQuote(DropOpeningQuote(line[e + 1..]))))
  }

  function AsSeq<T>(o: Option<T>): seq<T> {
    if o.Some? then [o.value] else []
  }

  /** The results `f` gives on the elements of `xs`, in order, leaving out `None`. */
  function Collect<A, B>(f: A -> Option<B>, xs: seq<A>): seq<B>
    decreases |xs|
  {
    if xs == [] then [] else Collect(f, xs[..|xs| - 1]) + AsSeq(f(xs[|xs| - 1]))
  }

  lemma {:induction false} CollectConcat<A, B>(f: A -> Option<B>, a: seq<A>, b: seq<A>)
    ensures Collect(f, a + b) == Collect(f, a) + Collect(f, b)
    decreases |b|
  {
    if b == [] {
      assert a + b == a;
    } else {
      assert (a + b)[..|a + b| - 1] == a + b[..|b| - 1];
      CollectConcat(f, a, b[..|b| - 1]);
    }
  }

  lemma CollectOne<A, B>(f: A -> Option<B>, x: A)
    ensures Collect(f, [x]) == AsSeq(f(x))
  {
    assert [x][..0] == [];
  }

  /** The entries of the matching lines, in file order. */
  function Parsed(ls: seq<string>): seq<Alias> {
    Collect(ParseAliasLine, ls)
  }

  /** `${aliasName} => ${command}` */
  function Format(a: Alias): string {
    a.name + " => " + a.command
  }

  function FormatAll(entries: seq<Alias>): (r: seq<string>)
    ensures |r| == |entries|
    ensures forall k :: 0 <= k < |entries| ==> r[k] == Format(entries[k])
    decreases |entries|
  {
    if entries == [] then [] else FormatAll(entries[..|entries| - 1]) + [Format(entries[|entries| - 1])]
  }

  /** What `listAliases` returns for a file. */
  function Listing(content: string): seq<string> {
    FormatAll(Parsed(Lines(content)))
  }

  lemma ParsedConcat(a: seq<string>, b: seq<string>)
    ensures Parsed(a + b) == Parsed(a) + Parsed(b)
  {
    CollectConcat(ParseAliasLine, a, b);
  }

  lemma ParsedOne(line: string)
    ensures Parsed([line]) == AsSeq(ParseAliasLine(line))
  {
    CollectOne(ParseAliasLine, line);
  }

  /** The results on the elements around index `i`. */
  lemma CollectSplit<A, B>(f: A -> Option<B>, xs: seq<A>, i: nat)
    requires i < |xs|
    ensures Collect(f, xs) == Collect(f, xs[..i]) + AsSeq(f(xs[i])) + Collect(f, xs[i + 1..])
  {
    assert xs == xs[..i] + xs[i..];
    CollectConcat(f, xs[..i], xs[i..]);
    CollectFrom(f, xs, i);
    AppendAssociates(Collect(f, xs[..i]), AsSeq(f(xs[i])), Collect(f, xs[i + 1..]));
  }

  lemma CollectFrom<A, B>(f: A -> Option<B>, xs: seq<A>, i: nat)
    requires i < |xs|
    ensures Collect(f, xs[i..]) == AsSeq(f(xs[i])) + Collect(f, xs[i + 1..])
  {
    assert xs[i..] == [xs[i]] + xs[i + 1..];
    CollectConcat(f, [xs[i]], xs[i + 1..]);
    CollectOne(f, xs[i]);
  }

  lemma CollectReplaced<A, B>(f: A -> Option<B>, xs: seq<A>, i: nat, x: A)
    requires i < |xs|
    ensures Collect(f, xs) == Collect(f, xs[..i]) + AsSeq(f(xs[i])) + Collect(f, xs[i + 1..])
    ensures Collect(f, xs[..i] + [x] + xs[i + 1..]) == Collect(f, xs[..i]) + AsSeq(f(x)) + Collect(f, xs[i + 1..])
  {
    var ys := xs[..i] + [x] + xs[i + 1..];
    assert ys[..i] == xs[..i] && ys[i] == x && ys[i + 1..] == xs[i + 1..];
    CollectSplit(f, xs, i);
    CollectSplit(f, ys, i);
  }

  lemma ParsedReplaced(ls: seq<string>, i: nat, x: string)
    requires i < |ls|
    ensures Parsed(ls) == Parsed(ls[..i]) + AsSeq(ParseAliasLine(ls[i])) + Parsed(ls[i + 1..])
    ensures Parsed(ls[..i] + [x] + ls[i + 1..]) == Parsed(ls[..i]) + AsSeq(ParseAliasLine(x)) + Parsed(ls[i + 1..])
  {
    CollectReplaced(ParseAliasLine, ls, i, x);
  }

  /** The listing pattern on a line that starts with `alias` and white space and
      whose first `=` is at index `e`. */
  lemma ParseAt(line: string, e: nat)
    requires |line| > 5 && line[..5] == "alias" && IsSpace(line[5])
    requires 7 <= e < |line| && line[e] == '='
    requires '=' !in line[..e]
    ensures ParseAliasLine(line) == Some(EntryAt(line, e))
  {
    forall j | 0 <= j < e
      ensures line[j] != '='
    {
      assert line[..e][j] == line[j];
    }
    IndexOfAt(line, '=', e);
  }

  lemma NoSpaceIsEquals(w: string)
    requires IsBlank(w)
    ensures '=' !in w
  {
    forall j | 0 <= j < |w|
      ensures w[j] != '='
    {
      assert IsSpace(w[j]);
    }
  }

  /** How the listing pattern reads a line `alias<w><n>=<rest>` whose `w` is white
      space and whose `n` holds no `=`. */
  lemma ParseSplit(line: string, w: string, n: string, rest: string)
    requires line == "alias" + w + n + "=" + rest
    requires w != [] && IsBlank(w) && n != [] && '=' !in n
    ensures ParseAliasLine(line) == Some(Alias(Trim(w + n), Trim(DropClosingQuote(DropOpeningQuote(rest)))))
  {
    var head := "alias" + w;
    var pre := head + n;
    var e := |pre|;
    assert line == pre + ("=" + rest);
    assert line[..e] == pre;
    assert line[e] == '=';
    assert line[e + 1..] == rest;
    assert pre[..5] == "alias" && pre[5] == w[0] by {
      assert head[..5] == "alias" && head[5] == w[0];
    }
    assert line[5..e] == w + n by {
      assert pre[5..] == w + n;
    }
    NoSpaceIsEquals(w);
    assert '=' !in head;
    ParseAt(line, e);
    assert EntryAt(line, e) == Alias(Trim(w + n), Trim(DropClosingQuote(DropOpeningQuote(rest))));
  }

  /** The quotes `addAlias` puts around a command are the ones the listing drops. */
  lemma UnquoteQuoted(command: string)
    ensures DropClosingQuote(DropOpeningQuote("'" + command + "'")) == command
  {
    var q := "'" + command + "'";
    assert q[0] == '\'' && q[1..] == command + "'";
    var t := command + "'";
    assert t[|t| - 1] == '\'' && t[..|t| - 1] == command;
  }

  /** Round trip: the listing reads back the line `addAlias` writes, as the
      trimmed name and the trimmed command. */
  lemma ParseNewLine(name: string, command: string)
    requires name != "" && '=' !in name
    ensures ParseAliasLine(NewLine(name, command)) == Some(Alias(Trim(name), Trim(command)))
  {
    var rest := "'" + command + "'";
    assert NewLine(name, command) == "alias" + " " + name + "=" + rest;
    assert IsBlank(" ") by {
      assert IsSpace(" "[0]);
    }
    ParseSplit(NewLine(name, command), " ", name, rest);
    TrimSkipsLeadingSpace(" ", name);
    UnquoteQuoted(command);
  }

  /** `\s*<name>=` at the start of `s`: white space up to index `k`, then the name,
      then `=`. */
  lemma {:induction false} SpacedDefinitionSplits(s: string, name: string) returns (k: nat)
    requires SpacedDefinition(s, name)
    ensures k + |name| < |s|
    ensures IsBlank(s[..k]) && s[k..k + |name|] == name && s[k + |name|] == '='
    decreases |s|
  {
    if name + "=" <= s {
      k := 0;
      assert s[..|name|] == (name + "=")[..|name|];
      assert s[|name|] == (name + "=")[|name|];
    } else {
      var k' := SpacedDefinitionSplits(s[1..], name);
      k := k' + 1;
      BlankCons(s[0], s[1..][..k']);
      assert s[..k] == [s[0]] + s[1..][..k'];
      assert s[k..k + |name|] == s[1..][k'..k' + |name|];
    }
  }

  /** The edit pattern and the listing pattern agree: a line that `addAlias` and
      `removeAlias` treat as defining `name` is listed under the trimmed `name`. */
  lemma DefinitionIsListed(line: string, name: string)
    requires DefinesAlias(line, name) && name != "" && '=' !in name
    ensures ParseAliasLine(line).Some? && ParseAliasLine(line).value.name == Trim(name)
  {
    var k := SpacedDefinitionSplits(line[6..], name);
    var e := 6 + k + |name|;
    var w := line[5..6 + k];
    assert line[6 + k..e] == line[6..][k..k + |name|];
    assert IsBlank(w) by {
      forall j | 0 <= j < |w| ensures IsSpace(w[j]) {
        if j > 0 {
          assert w[j] == line[6..][..k][j - 1];
        }
      }
    }
    assert line[5..e] == w + name;
    NoEqualsBeforeName(line, w, name, e);
    ParseAt(line, e);
    TrimSkipsLeadingSpace(w, name);
  }

  lemma NoEqualsBeforeName(line: string, w: string, name: string, e: nat)
    requires 5 <= e <= |line| && line[..5] == "alias" && line[5..e] == w + name
    requires IsBlank(w) && '=' !in name
    ensures '=' !in line[..e]
  {
    forall j | 0 <= j < e
      ensures line[j] != '='
    {
      if j < 5 {
        assert line[j] == line[..5][j];
      } else if j < 5 + |w| {
        assert line[j] == w[j - 5];
      } else {
        assert line[j] == (w + name)[j - 5] == name[j - 5 - |w|];
      }
    }
  }

  /** Conversely to `ParseSplit`: a line yields an entry only when it has the
      shape `alias<ws><n>=<rest>`, with white space `ws`, a non-empty `n` free of
      `=`, and the entry made of those parts. */
  lemma ParseAliasLineShape(line: string) returns (w: string, n: string, rest: string)
    requires ParseAliasLine(line).Some?
    ensures line == "alias" + w + n + "=" + rest
    ensures w != [] && IsBlank(w) && n != [] && '=' !in n
    ensures ParseAliasLine(line).value == Alias(Trim(w + n), Trim(DropClosingQuote(DropOpeningQuote(rest))))
  {
    var e := IndexOf(line, '=');
    assert 7 <= e < |line| && ParseAliasLine(line).value == EntryAt(line, e);
    w, n, rest := ShapeAt(line, e);
  }

  /** The parts of a line that starts with `alias` and white space and whose
      first `=` is at index `e`. */
  lemma ShapeAt(line: string, e: nat) returns (w: string, n: string, rest: string)
    requires 7 <= e < |line| && line[..5] == "alias" && IsSpace(line[5])
    requires e == IndexOf(line, '=')
    ensures line == "alias" + w + n + "=" + rest
    ensures w != [] && IsBlank(w) && n != [] && '=' !in n
    ensures EntryAt(line, e) == Alias(Trim(w + n), Trim(DropClosingQuote(DropOpeningQuote(rest))))
  {
    w, n, rest := [line[5]], line[6..e], line[e + 1..];
    EntryParts(line, e);
    LineEquation(line, e);
    NoEqualsBeforeFirst(line, e);
    assert IsBlank(w) by {
      assert w[0] == line[5];
    }
  }

  /** The entry read from a line whose first `=` is at index `e`, in terms of the
      character after `alias`, the text up to `=` and the text after it. */
  lemma EntryParts(line: string, e: nat)
    requires 6 < e < |line|
    ensures EntryAt(line, e)
            == Alias(Trim([line[5]] + line[6..e]), Trim(DropClosingQuote(DropOpeningQuote(line[e + 1..]))))
  {
    SliceSplit(line, 5, 6, e);
    assert line[5..6] == [line[5]];
  }

  lemma LineEquation(line: string, e: nat)
    requires 6 < e < |line| && line[..5] == "alias" && line[e] == '='
    ensures line == "alias" + [line[5]] + line[6..e] + "=" + line[e + 1..]
  {
    SplitAround(line, e);
    assert line[5..6] == [line[5]];
    assert [line[e]] == "=";
  }

  lemma SliceSplit<T>(s: seq<T>, i: nat, j: nat, k: nat)
    requires i <= j <= k <= |s|
    ensures s[i..k] == s[i..j] + s[j..k]
  {
  }

  lemma SplitAround(line: string, e: nat)
    requires 5 < e < |line|
    ensures line == line[..5] + line[5..6] + line[6..e] + [line[e]] + line[e + 1..]
  {
    assert line[..5] + line[5..6] == line[..6];
    assert line[..6] + line[6..e] == line[..e];
    assert line[..e] + [line[e]] == line[..e + 1];
  }

  lemma NoEqualsBeforeFirst(line: string, e: nat)
    requires 6 <= e <= |line| && e == IndexOf(line, '=')
    ensures '=' !in line[6..e]
  {
    forall j | 0 <= j < e - 6
      ensures line[6..e][j] != '='
    {
      assert line[6..e][j] == line[6 + j];
    }
  }

  /** Conversely to `SpacedDefinitionSplits`: white space, the name and `=` at the
      start of `v + x` make a spaced definition. */
  lemma {:induction false} BlankThenDefinition(v: string, x: string, name: string)
    requires IsBlank(v) && name + "=" <= x
    ensures SpacedDefinition(v + x, name)
    decreases |v|
  {
    if v == [] {
      assert v + x == x;
    } else {
      assert (v + x)[0] == v[0];
      assert (v + x)[1..] == v[1..] + x;
      BlankThenDefinition(v[1..], x, name);
    }
  }

  /** Every line of the shape `alias<ws><name>=<rest>`, with `ws` non-empty white
      space, is one the edit pattern treats as defining `name`. */
  lemma ShapeDefines(line: string, w: string, name: string, rest: string)
    requires line == "alias" + w + name + "=" + rest
    requires w != [] && IsBlank(w)
    ensures DefinesAlias(line, name)
  {
    var x := name + "=" + rest;
    assert line == "alias" + (w + x);
    assert line[..5] == "alias" && line[5] == w[0];
    assert line[6..] == w[1..] + x;
    assert (name + "=") <= x;
    BlankThenDefinition(w[1..], x, name);
  }

  lemma ParsedWithReplaced(ls: seq<string>, i: nat, x: string, a: Alias)
    requires i < |ls| && ParseAliasLine(x) == Some(a)
    ensures Parsed(ls[..i] + [x] + ls[i + 1..]) == Parsed(ls[..i]) + [a] + Parsed(ls[i + 1..])
  {
    ParsedReplaced(ls, i, x);
  }

  lemma ParsedWithAppended(ls: seq<string>, x: string, a: Alias)
    requires ParseAliasLine(x) == Some(a)
    ensures Parsed(ls + [x]) == Parsed(ls) + [a]
  {
    ParsedConcat(ls, [x]);
    ParsedOne(x);
  }

  lemma CollectBlanked<A, B>(f: A -> Option<B>, xs: seq<A>, i: nat, x: A)
    requires i < |xs| && f(xs[i]).Some? && f(x).None?
    ensures Collect(f, xs) == Collect(f, xs[..i]) + [f(xs[i]).value] + Collect(f, xs[i + 1..])
    ensures Collect(f, xs[..i] + [x] + xs[i + 1..]) == Collect(f, xs[..i]) + Collect(f, xs[i + 1..])
  {
    CollectReplaced(f, xs, i, x);
    assert AsSeq(f(xs[i])) == [f(xs[i]).value];
    assert Collect(f, xs[..i]) + AsSeq(f(x)) == Collect(f, xs[..i]);
  }

  lemma ParsedWithBlanked(ls: seq<string>, i: nat)
    requires i < |ls| && ParseAliasLine(ls[i]).Some?
    ensures Parsed(ls) == Parsed(ls[..i]) + [ParseAliasLine(ls[i]).value] + Parsed(ls[i + 1..])
    ensures Parsed(ls[..i] + [""] + ls[i + 1..]) == Parsed(ls[..i]) + Parsed(ls[i + 1..])
  {
    ParseBlank();
    CollectBlanked(ParseAliasLine, ls, i, "");
  }

  lemma ParseBlank()
    ensures ParseAliasLine("") == None
  {
  }

  lemma FormattedAt(entries: seq<Alias>, k: nat)
    requires k < |entries|
    ensures Format(entries[k]) in FormatAll(entries)
  {
    assert FormatAll(entries)[k] == Format(entries[k]);
  }

  /** After `addAlias` the entries are those of before with `name => command`
      (both trimmed) in place of the first definition, or at the end when there
      was none. */
  lemma UpsertListing(content: string, name: string, command: string)
    requires PlainArguments(name, command) && name != "" && '=' !in name
    ensures var ls, i := Lines(content), FirstDefinition(Lines(content), name);
      Parsed(Lines(Upsert(content, name, command)))
        == if i < |ls| then Parsed(ls[..i]) + [Alias(Trim(name), Trim(command))] + Parsed(ls[i + 1..])
           else Parsed(ls) + [Alias(Trim(name), Trim(command))]
  {
    var nl := NewLine(name, command);
    var ls, i := Lines(content), FirstDefinition(Lines(content), name);
    UpsertLines(content, name, command);
    ParseNewLine(name, command);
    if i < |ls| {
      ParsedWithReplaced(ls, i, nl, Alias(Trim(name), Trim(command)));
    } else {
      ParsedWithAppended(ls, nl, Alias(Trim(name), Trim(command)));
    }
  }

  /** `listAliases` shows an alias once `addAlias` has written it. */
  lemma UpsertIsListed(content: string, name: string, command: string)
    requires PlainArguments(name, command) && name != "" && '=' !in name
    ensures Format(Alias(Trim(name), Trim(command))) in Listing(Upsert(content, name, command))
  {
    var ls, i := Lines(content), FirstDefinition(Lines(content), name);
    UpsertListing(content, name, command);
    var k := if i < |ls| then |Parsed(ls[..i])| else |Parsed(ls)|;
    FormattedAt(Parsed(Lines(Upsert(content, name, command))), k);
  }

  /** After `removeAlias` the listing has lost the entry of the first definition,
      which was listed under the trimmed `name`, and nothing else. */
  lemma RemoveIsUnlisted(content: string, name: string)
    requires FirstDefinition(Lines(content), name) < |Lines(content)|
    requires name != "" && '=' !in name
    ensures var ls, i := Lines(content), FirstDefinition(Lines(content), name);
      && ParseAliasLine(ls[i]).Some? && ParseAliasLine(ls[i]).value.name == Trim(name)
      && Parsed(ls) == Parsed(ls[..i]) + [ParseAliasLine(ls[i]).value] + Parsed(ls[i + 1..])
      && Parsed(Lines(RemoveFirst(content, name))) == Parsed(ls[..i]) + Parsed(ls[i + 1..])
  {
    var ls, i := Lines(content), FirstDefinition(Lines(content), name);
    DefinitionIsListed(ls[i], name);
    RemoveBlanksLine(content, name);
    ParsedWithBlanked(ls, i);
  }

  // ---------------------------------------------------------------------------
  // The line-level reading stays exact

  lemma AllPlainReplaced(ls: seq<string>, i: nat, x: string)
    requires AllPlain(ls) && i < |ls| && PlainLine(x)
    ensures AllPlain(ls[..i] + [x] + ls[i + 1..])
  {
    var ls' := ls[..i] + [x] + ls[i + 1..];
    forall j | 0 <= j < |ls'|
      ensures PlainLine(ls'[j])
    {
      if j != i {
        assert ls'[j] == ls[j];
      }
    }
  }

  lemma AllPlainAppended(ls: seq<string>, x: string)
    requires AllPlain(ls) && PlainLine(x)
    ensures AllPlain(ls + [x])
  {
    forall j | 0 <= j < |ls| + 1
      ensures PlainLine((ls + [x])[j])
    {
      if j < |ls| {
        assert (ls + [x])[j] == ls[j];
      }
    }
  }

  lemma NewLinePlain(name: string, command: string)
    requires PlainArguments(name, command)
    ensures PlainLine(NewLine(name, command))
  {
    PlainNewLine(name, command);
    assert NewLine(name, command)[6 + |name|] == '=';
  }

  /** With plain arguments, `addAlias` keeps a file line-local. */
  lemma UpsertKeepsLineLocal(content: string, name: string, command: string)
    requires LineLocal(content) && PlainArguments(name, command)
    ensures LineLocal(Upsert(content, name, command))
  {
    var ls, i := Lines(content), FirstDefinition(Lines(content), name);
    UpsertLines(content, name, command);
    NewLinePlain(name, command);
    if i < |ls| {
      AllPlainReplaced(ls, i, NewLine(name, command));
    } else {
      AllPlainAppended(ls, NewLine(name, command));
    }
  }

  /** `removeAlias` keeps a file line-local. */
  lemma RemoveKeepsLineLocal(content: string, name: string)
    requires LineLocal(content)
    ensures LineLocal(RemoveFirst(content, name))
  {
    var ls, i := Lines(content), FirstDefinition(Lines(content), name);
    if i < |ls| {
      assert Lines(RemoveFirst(content, name)) == ls[..i] + [""] + ls[i + 1..] by {
        RemoveBlanksLine(content, name);
      }
      assert AllPlain(ls[..i] + [""] + ls[i + 1..]) by {
        AllPlainBlanked(ls, i);
      }
    } else {
      assert RemoveFirst(content, name) == content;
    }
  }

  lemma AllPlainBlanked(ls: seq<string>, i: nat)
    requires AllPlain(ls) && i < |ls|
    ensures AllPlain(ls[..i] + [""] + ls[i + 1..])
  {
    AllPlainReplaced(ls, i, "");
  }
}
