/** The env file of a bundle: parsed, merged under the deployed entries, rendered. */
module EnvFile {
  import opened Wrappers
  import opened Text

  datatype Entry = Entry(name: string, value: string)

  /** A map that remembers the order in which names first appeared. */
  datatype EnvMap = EnvMap(order: seq<string>, merged: map<string, string>)

  const EMPTY := EnvMap([], map[])

  ghost predicate Valid(m: EnvMap)
  {
    && (forall i, j | 0 <= i < j < |m.order| :: m.order[i] != m.order[j])
    && (forall n :: n in m.order <==> n in m.merged)
  }

  function Put(m: EnvMap, e: Entry): EnvMap
  {
    EnvMap(if e.name in m.merged then m.order else m.order + [e.name], m.merged[e.name := e.value])
  }

  function PutMaybe(m: EnvMap, e: Option<Entry>): EnvMap
  {
    if e.Some? then Put(m, e.value) else m
  }

  function PutAll(m: EnvMap, es: seq<Entry>): EnvMap
  {
    if es == [] then m else Put(PutAll(m, es[..|es| - 1]), es[|es| - 1])
  }

  // -------------------------------------------------------------------- parsing

  /** NAME=VALUE around the first '=', trimmed; nothing without '=' or with an empty name. */
  function CutEntry(kv: string): Option<Entry>
  {
    var i := IndexOf(kv, '=');
    if i == |kv| || TrimSpace(kv[..i]) == "" then None
    else Some(Entry(TrimSpace(kv[..i]), TrimSpace(kv[i + 1..])))
  }

  /** A line of the file: blank lines and comments say nothing. */
  function LineEntry(raw: string): Option<Entry>
  {
    var line := TrimSpace(raw);
    if line == "" || line[0] == '#' then None else CutEntry(line)
  }

  /** An entry of the deploy spec. */
  function SpecEntry(raw: string): Option<Entry>
  {
    var kv := TrimSpace(raw);
    if kv == "" then None else CutEntry(kv)
  }

  function Listed(e: Option<Entry>): seq<Entry>
  {
    if e.Some? then [e.value] else []
  }

  function LineEntries(lines: seq<string>): seq<Entry>
  {
    if lines == [] then [] else LineEntries(lines[..|lines| - 1]) + Listed(LineEntry(lines[|lines| - 1]))
  }

  function SpecEntries(env: seq<string>): seq<Entry>
  {
    if env == [] then [] else SpecEntries(env[..|env| - 1]) + Listed(SpecEntry(env[|env| - 1]))
  }

  function Parse(text: string): EnvMap
  {
    PutAll(EMPTY, LineEntries(SplitLines(text)))
  }

  function ParseFile(file: Option<string>): EnvMap
  {
    if file.Some? then Parse(file.value) else EMPTY
  }

  // ------------------------------------------------------------------- rendering

  function ValueOf(merged: map<string, string>, name: string): string
  {
    if name in merged then merged[name] else ""
  }

  function RenderNames(order: seq<string>, merged: map<string, string>): string
  {
    if order == [] then ""
    else
      var name := order[|order| - 1];
      RenderNames(order[..|order| - 1], merged) + (name + "=" + ValueOf(merged, name)) + [LF]
  }

  function Render(m: EnvMap): string
  {
    RenderNames(m.order, m.merged)
  }

  function Seen(file: Option<string>, readable: bool): Option<string>
  {
    if readable then file else None
  }

  /** The map a write stores: the file's, overridden by the spec. */
  function Merged(file: Option<string>, env: seq<string>): EnvMap
  {
    PutAll(ParseFile(file), SpecEntries(env))
  }

  /** The file on disk, replaced by an atomic rename. */
  class EnvStore {
    var file: Option<string>

    constructor (file: Option<string>)
      ensures this.file == file
    {
      this.file := file;
    }

    static method AddLine(m: EnvMap, raw: string) returns (m': EnvMap)
      ensures m' == PutMaybe(m, LineEntry(raw))
    {
      var line := TrimSpace(raw);
      if line == "" || line[0] == '#' {
        return m;
      }
      m' := PutMaybe(m, CutEntry(line));
    }

    static method AddSpec(m: EnvMap, raw: string) returns (m': EnvMap)
      ensures m' == PutMaybe(m, SpecEntry(raw))
    {
      var kv := TrimSpace(raw);
      if kv == "" {
        return m;
      }
      m' := PutMaybe(m, CutEntry(kv));
    }

    /** The existing file, line by line; one that cannot be read counts as empty. */
    method ReadMap(readable: bool) returns (m: EnvMap)
      ensures m == ParseFile(Seen(file, readable))
    {
      m := EMPTY;
      if file.None? || !readable {
        return;
      }
      var lines := SplitLines(file.value);
      for i := 0 to |lines|
        invariant m == PutAll(EMPTY, LineEntries(lines[..i]))
      {
        LineStep(lines, i);
        m := AddLine(m, lines[i]);
      }
      assert lines[..|lines|] == lines;
    }

    /** The spec entries over the parsed map, the later ones winning. */
    static method MergeSpec(parsed: EnvMap, env: seq<string>) returns (m: EnvMap)
      ensures m == PutAll(parsed, SpecEntries(env))
    {
      m := parsed;
      for i := 0 to |env|
        invariant m == PutAll(parsed, SpecEntries(env[..i]))
      {
        SpecStep(parsed, env, i);
        m := AddSpec(m, env[i]);
      }
      assert env[..|env|] == env;
    }

    /** writeEnvFile. `readable` is whether an existing file can be read, and `stored`
        whether the temporary file could be written and renamed. */
    method Write(env: seq<string>, readable: bool, stored: bool)
      modifies this
      ensures file == if stored then Some(Render(Merged(Seen(old(file), readable), env))) else old(file)
    {
      var parsed := ReadMap(readable);
      var m := MergeSpec(parsed, env);
      var text := RenderText(m);
      if stored {
        file := Some(text);
      }
    }

    static method RenderText(m: EnvMap) returns (text: string)
      ensures text == Render(m)
    {
      text := "";
      for i := 0 to |m.order|
        invariant text == RenderNames(m.order[..i], m.merged)
      {
        assert m.order[..i + 1][..i] == m.order[..i];
        text := text + (m.order[i] + "=" + ValueOf(m.merged, m.order[i])) + [LF];
      }
      assert m.order[..|m.order|] == m.order;
    }
  }

  /** One more entry, or none. */
  lemma PutOne(m: EnvMap, es: seq<Entry>, e: Option<Entry>)
    ensures PutAll(m, es + Listed(e)) == PutMaybe(PutAll(m, es), e)
  {
    match e {
      case None => assert es + [] == es;
      case Some(entry) => assert (es + [entry])[..|es|] == es;
    }
  }

  lemma LineStep(lines: seq<string>, i: nat)
    requires i < |lines|
    ensures PutAll(EMPTY, LineEntries(lines[..i + 1])) == PutMaybe(PutAll(EMPTY, LineEntries(lines[..i])), LineEntry(lines[i]))
  {
    assert lines[..i + 1][..i] == lines[..i];
    PutOne(EMPTY, LineEntries(lines[..i]), LineEntry(lines[i]));
  }

  lemma SpecStep(m: EnvMap, env: seq<string>, i: nat)
    requires i < |env|
    ensures PutAll(m, SpecEntries(env[..i + 1])) == PutMaybe(PutAll(m, SpecEntries(env[..i])), SpecEntry(env[i]))
  {
    assert env[..i + 1][..i] == env[..i];
    PutOne(m, SpecEntries(env[..i]), SpecEntry(env[i]));
  }

  // ------------------------------------------------------------------ invariants

  lemma {:induction false} PutAllValid(m: EnvMap, es: seq<Entry>)
    requires Valid(m)
    ensures Valid(PutAll(m, es))
  {
    if es != [] {
      PutAllValid(m, es[..|es| - 1]);
    }
  }

  /** What parsing accepts: trimmed, a name that is not empty and has no '='. */
  predicate Shaped(e: Entry)
  {
    e.name != "" && Trimmed(e.name) && !Contains(e.name, '=') && Trimmed(e.value)
  }

  /** What a line of the file can carry back: no line feed, and not a comment. */
  predicate Storable(e: Entry)
  {
    Shaped(e) && !Contains(e.name, LF) && !Contains(e.value, LF) && e.name[0] != '#'
  }

  ghost predicate AllShaped(m: EnvMap)
  {
    forall n | n in m.merged :: Shaped(Entry(n, m.merged[n]))
  }

  ghost predicate AllStorable(m: EnvMap)
  {
    forall n | n in m.merged :: Storable(Entry(n, m.merged[n]))
  }

  lemma CutEntryShaped(kv: string)
    ensures CutEntry(kv).Some? ==> Shaped(CutEntry(kv).value)
    ensures CutEntry(kv).Some? && !Contains(kv, LF) ==>
              !Contains(CutEntry(kv).value.name, LF) && !Contains(CutEntry(kv).value.value, LF)
  {
    var i := IndexOf(kv, '=');
    if i < |kv| {
      var name, value := kv[..i], kv[i + 1..];
      TrimSpaceTrims(name);
      TrimSpaceTrims(value);
      assert !Contains(name, '=');
      assert !Contains(kv, LF) ==> !Contains(name, LF) && !Contains(value, LF);
    }
  }

  /** The name keeps the first character of a line without leading space. */
  lemma CutEntryStart(kv: string)
    requires kv != "" && LeadingSpace(kv) == 0 && CutEntry(kv).Some?
    ensures CutEntry(kv).value.name[0] == kv[0]
  {
    var name := kv[..IndexOf(kv, '=')];
    assert TrimSpace("") == "";
    assert name != "" && LeadingSpace(name) == 0;
    assert TrimLeft(name) == name;
    TrimRightIsPrefix(name);
  }

  /** Every entry read from a line without a line feed can be stored again. */
  lemma LineEntryStorable(raw: string)
    requires !Contains(raw, LF)
    ensures LineEntry(raw).Some? ==> Storable(LineEntry(raw).value)
  {
    TrimSpaceTrims(raw);
    var line := TrimSpace(raw);
    CutEntryShaped(line);
    if line != "" && CutEntry(line).Some? {
      CutEntryStart(line);
    }
  }

  lemma SpecEntryShaped(raw: string)
    ensures SpecEntry(raw).Some? ==> Shaped(SpecEntry(raw).value)
  {
    CutEntryShaped(TrimSpace(raw));
  }

  lemma {:induction false} SplitLinesHaveNoLineFeed(s: string)
    ensures forall line | line in SplitLines(s) :: !Contains(line, LF)
    decreases |s|
  {
    var i := IndexOf(s, LF);
    if i < |s| {
      SplitLinesHaveNoLineFeed(s[i + 1..]);
      assert SplitLines(s) == [s[..i]] + SplitLines(s[i + 1..]);
    } else {
      assert SplitLines(s) == [s];
    }
  }

  lemma {:induction false} LineEntriesStorable(lines: seq<string>)
    requires forall line | line in lines :: !Contains(line, LF)
    ensures forall e | e in LineEntries(lines) :: Storable(e)
  {
    if lines != [] {
      LineEntriesStorable(lines[..|lines| - 1]);
      LineEntryStorable(lines[|lines| - 1]);
    }
  }

  lemma {:induction false} SpecEntriesShaped(env: seq<string>)
    ensures forall e | e in SpecEntries(env) :: Shaped(e)
  {
    if env != [] {
      SpecEntriesShaped(env[..|env| - 1]);
      SpecEntryShaped(env[|env| - 1]);
    }
  }

  lemma {:induction false} PutAllKeeps(m: EnvMap, es: seq<Entry>)
    ensures AllShaped(m) && (forall e | e in es :: Shaped(e)) ==> AllShaped(PutAll(m, es))
    ensures AllStorable(m) && (forall e | e in es :: Storable(e)) ==> AllStorable(PutAll(m, es))
  {
    if es != [] {
      PutAllKeeps(m, es[..|es| - 1]);
      assert es[|es| - 1] in es;
    }
  }

  lemma EmptyIsValid()
    ensures Valid(EMPTY) && AllStorable(EMPTY)
  {
  }

  /** Parsing any text gives a map that rendering can carry. */
  lemma ParsedIsStorable(text: string)
    ensures Valid(Parse(text)) && AllStorable(Parse(text))
  {
    EmptyIsValid();
    SplitLinesHaveNoLineFeed(text);
    LineEntriesStorable(SplitLines(text));
    PutAllValid(EMPTY, LineEntries(SplitLines(text)));
    PutAllKeeps(EMPTY, LineEntries(SplitLines(text)));
  }

  lemma MergedIsShaped(file: Option<string>, env: seq<string>)
    ensures Valid(Merged(file, env)) && AllShaped(Merged(file, env))
  {
    EmptyIsValid();
    if file.Some? {
      ParsedIsStorable(file.value);
    }
    var m := ParseFile(file);
    assert AllShaped(m) by {
      forall n | n in m.merged
        ensures Shaped(Entry(n, m.merged[n]))
      {
        assert Storable(Entry(n, m.merged[n]));
      }
    }
    SpecEntriesShaped(env);
    PutAllValid(m, SpecEntries(env));
    PutAllKeeps(m, SpecEntries(env));
  }

  // ------------------------------------------------------------------ round trip

  lemma JoinedLine(e: Entry)
    requires Storable(e)
    ensures var line := e.name + ['='] + e.value;
            && line != "" && line[0] == e.name[0] && LeadingSpace(line) == 0 && TrailingSpace(line) == 0
            && !Contains(line, LF)
  {
    var line := e.name + ['='] + e.value;
    forall i | 0 <= i < |line|
      ensures line[i] != LF
    {
      if i < |e.name| {
        assert line[i] == e.name[i];
      } else if i > |e.name| {
        assert line[i] == e.value[i - |e.name| - 1];
      }
    }
  }

  lemma StoredLine(e: Entry)
    requires Storable(e)
    ensures LineEntry(e.name + "=" + e.value) == Some(e)
    ensures !Contains(e.name + "=" + e.value, LF)
  {
    var line := e.name + ['='] + e.value;
    JoinedLine(e);
    TrimSpaceTrims(line);
    CutJoined(e);
  }

  lemma CutJoined(e: Entry)
    requires Storable(e)
    ensures CutEntry(e.name + ['='] + e.value) == Some(e)
  {
    var line := e.name + ['='] + e.value;
    IndexAfter(e.name, '=', e.value);
    assert line[..|e.name|] == e.name && line[|e.name| + 1..] == e.value;
    TrimSpaceTrims(e.name);
    TrimSpaceTrims(e.value);
  }

  function Entries(order: seq<string>, merged: map<string, string>): seq<Entry>
  {
    if order == [] then []
    else
      Entries(order[..|order| - 1], merged)
      + [Entry(order[|order| - 1], ValueOf(merged, order[|order| - 1]))]
  }

  lemma {:induction false} RenderedEntries(order: seq<string>, merged: map<string, string>)
    requires forall n | n in order :: n in merged && Storable(Entry(n, merged[n]))
    ensures Tail(RenderNames(order, merged)) == ""
    ensures LineEntries(CompleteLines(RenderNames(order, merged))) == Entries(order, merged)
  {
    if order != [] {
      var shorter, name := order[..|order| - 1], order[|order| - 1];
      var before, line := RenderNames(shorter, merged), name + "=" + ValueOf(merged, name);
      RenderedEntries(shorter, merged);
      assert name in order;
      StoredLine(Entry(name, merged[name]));
      AppendLine(before, line);
      var lines := CompleteLines(before);
      assert (lines + [line])[..|lines|] == lines;
    }
  }

  lemma EmptyText()
    ensures CompleteLines("") == [] && Tail("") == ""
  {
  }

  /** One more terminated line after terminated lines. */
  lemma AppendLine(before: string, line: string)
    requires Tail(before) == "" && !Contains(line, LF)
    ensures CompleteLines(before + line + [LF]) == CompleteLines(before) + [line]
    ensures Tail(before + line + [LF]) == ""
  {
    LinesOfConcat(before, line + [LF]);
    TerminatedLine(line);
    Regroup(before, line, [LF]);
    Regroup("", line, [LF]);
    assert "" + line == line;
  }

  lemma TerminatedLine(line: string)
    requires !Contains(line, LF)
    ensures CompleteLines(line + [LF]) == [line] && Tail(line + [LF]) == ""
  {
    FirstLine(line, "");
    EmptyText();
    assert line + [LF] + "" == line + [LF];
  }

  lemma {:induction false} PutAllEntries(order: seq<string>, merged: map<string, string>)
    requires forall i, j | 0 <= i < j < |order| :: order[i] != order[j]
    requires forall n | n in order :: n in merged
    ensures var m := PutAll(EMPTY, Entries(order, merged));
            && m.order == order
            && (forall n :: n in m.merged <==> n in order)
            && forall n | n in order :: m.merged[n] == merged[n]
  {
    if order != [] {
      var shorter, name := order[..|order| - 1], order[|order| - 1];
      PutAllEntries(shorter, merged);
      PutOne(EMPTY, Entries(shorter, merged), Some(Entry(name, ValueOf(merged, name))));
      LastIsNew(order);
      PutFresh(PutAll(EMPTY, Entries(shorter, merged)), shorter, merged, name);
    }
  }

  lemma LastIsNew(order: seq<string>)
    requires order != [] && forall i, j | 0 <= i < j < |order| :: order[i] != order[j]
    ensures order == order[..|order| - 1] + [order[|order| - 1]]
    ensures order[|order| - 1] !in order[..|order| - 1]
  {
  }

  lemma PutFresh(m: EnvMap, order: seq<string>, merged: map<string, string>, name: string)
    requires m.order == order && forall n :: n in m.merged <==> n in order
    requires forall n | n in order :: n in merged && m.merged[n] == merged[n]
    requires name !in order && name in merged
    ensures var m' := Put(m, Entry(name, ValueOf(merged, name)));
            && m'.order == order + [name]
            && (forall n :: n in m'.merged <==> n in order + [name])
            && forall n | n in order + [name] :: m'.merged[n] == merged[n]
  {
  }

  /** Reading back what was rendered gives the same map exactly when every entry of
      the map is one a line can carry. */
  lemma RenderParseRoundTrip(m: EnvMap)
    requires Valid(m) && AllShaped(m)
    ensures Parse(Render(m)) == m <==> AllStorable(m)
  {
    if AllStorable(m) {
      RenderedEntries(m.order, m.merged);
      var text := Render(m);
      BlankTail(CompleteLines(text));
      PutAllEntries(m.order, m.merged);
      assert Parse(text).merged.Keys == m.merged.Keys;
    }
    ParsedIsStorable(Render(m));
  }

  lemma BlankTail(lines: seq<string>)
    ensures LineEntries(lines + [""]) == LineEntries(lines)
  {
    assert (lines + [""])[..|lines|] == lines;
    assert TrimSpace("") == "";
  }

  // ---------------------------------------------------------------------- merging

  /** The value the entries give to `name`, the last one winning. */
  function LastValue(es: seq<Entry>, name: string): Option<string>
  {
    if es == [] then None
    else if es[|es| - 1].name == name then Some(es[|es| - 1].value)
    else LastValue(es[..|es| - 1], name)
  }

  function Lookup(m: EnvMap, name: string): Option<string>
  {
    if name in m.merged then Some(m.merged[name]) else None
  }

  /** Merging overrides: the last entry for a name wins, other names keep their value,
      and names already present keep their place. */
  lemma {:induction false} PutAllOverrides(m: EnvMap, es: seq<Entry>)
    ensures forall n :: Lookup(PutAll(m, es), n) == if LastValue(es, n).Some? then LastValue(es, n) else Lookup(m, n)
    ensures m.order <= PutAll(m, es).order
    ensures (forall e | e in es :: e.name in m.merged) ==> PutAll(m, es).order == m.order
  {
    if es != [] {
      PutAllOverrides(m, es[..|es| - 1]);
      forall e | e in es[..|es| - 1]
        ensures e in es
      {
      }
      assert es[|es| - 1] in es;
      var before := PutAll(m, es[..|es| - 1]);
      assert Lookup(before, es[|es| - 1].name).Some? <==> es[|es| - 1].name in before.merged;
      if forall e | e in es :: e.name in m.merged {
        assert Lookup(m, es[|es| - 1].name).Some?;
      }
    }
  }

  lemma {:induction false} NamesPresent(m: EnvMap, es: seq<Entry>)
    ensures forall e | e in es :: e.name in PutAll(m, es).merged
  {
    if es != [] {
      NamesPresent(m, es[..|es| - 1]);
    }
  }

  /** Merging the same entries again changes nothing, not even the order. */
  lemma MergeIdempotent(m: EnvMap, es: seq<Entry>)
    ensures PutAll(PutAll(m, es), es) == PutAll(m, es)
  {
    var once := PutAll(m, es);
    var twice := PutAll(once, es);
    NamesPresent(m, es);
    PutAllOverrides(m, es);
    PutAllOverrides(once, es);
    forall n
      ensures n in twice.merged <==> n in once.merged
      ensures n in once.merged ==> twice.merged[n] == once.merged[n]
    {
      assert Lookup(twice, n) == Lookup(once, n);
    }
    assert twice.merged.Keys == once.merged.Keys;
    assert twice.merged == once.merged;
  }

  /** The write, read back: the old map overridden by the spec, in the old order
      with new names after it, exactly when the merged map can be stored. */
  lemma WriteReadsBack(file: Option<string>, env: seq<string>)
    ensures Parse(Render(Merged(file, env))) == Merged(file, env) <==> AllStorable(Merged(file, env))
    ensures ParseFile(file).order <= Merged(file, env).order
    ensures forall n :: Lookup(Merged(file, env), n) ==
              if LastValue(SpecEntries(env), n).Some? then LastValue(SpecEntries(env), n) else Lookup(ParseFile(file), n)
  {
    MergedIsShaped(file, env);
    RenderParseRoundTrip(Merged(file, env));
    PutAllOverrides(ParseFile(file), SpecEntries(env));
  }

  /** No key of the file is lost, exactly when the file could be read or the spec names
      every key it holds; a read that fails drops the others. */
  lemma KeysKept(file: Option<string>, env: seq<string>, readable: bool)
    ensures (forall n | n in ParseFile(file).merged :: n in Merged(Seen(file, readable), env).merged)
            <==> readable || forall n | n in ParseFile(file).merged :: LastValue(SpecEntries(env), n).Some?
  {
    var kept := Merged(Seen(file, readable), env);
    PutAllOverrides(ParseFile(Seen(file, readable)), SpecEntries(env));
    forall n
      ensures n in kept.merged <==>
                LastValue(SpecEntries(env), n).Some? || (readable && n in ParseFile(file).merged)
    {
      assert Lookup(kept, n).Some? <==> n in kept.merged;
    }
  }

  /** A spec whose own entries can be stored always gives a map that can. */
  lemma StorableSpecSuffices(file: Option<string>, env: seq<string>)
    requires forall e | e in SpecEntries(env) :: Storable(e)
    ensures AllStorable(Merged(file, env))
  {
    EmptyIsValid();
    if file.Some? {
      ParsedIsStorable(file.value);
    }
    PutAllKeeps(ParseFile(file), SpecEntries(env));
  }

  /** Writing the same spec a second time leaves the file as it is, byte for byte. */
  lemma SecondWriteIsIdentical(file: Option<string>, env: seq<string>)
    requires AllStorable(Merged(file, env))
    ensures var text := Render(Merged(file, env));
            Render(Merged(Some(text), env)) == text
  {
    WriteReadsBack(file, env);
    MergeIdempotent(ParseFile(file), SpecEntries(env));
  }

  // ------------------------------------------------ the spec, read off its text

  /** What one string of the deploy spec is: an entry with white space around it, a string
      without an equals sign, or one with no name before it. */
  datatype SpecItem =
    | Given(entry: Entry, before: seq<string>, after: seq<string>)
    | NoEquals
    | NoName(before: seq<string>, value: string)

  ghost predicate ItemText(item: SpecItem, text: string)
  {
    match item
    case Given(e, l, r) =>
      Storable(e) && AllSpace(l) && AllSpace(r) && text == Spaces(l) + (e.name + "=" + e.value) + Spaces(r)
    case NoEquals => !Contains(text, '=')
    case NoName(l, value) => AllSpace(l) && text == Spaces(l) + ("=" + value)
  }

  /** The entry a string of the spec gives, and a line of the file too. */
  lemma GivenEntry(e: Entry, l: seq<string>, r: seq<string>)
    requires Storable(e) && AllSpace(l) && AllSpace(r)
    ensures SpecEntry(Spaces(l) + (e.name + "=" + e.value) + Spaces(r)) == Some(e)
    ensures LineEntry(Spaces(l) + (e.name + "=" + e.value) + Spaces(r)) == Some(e)
  {
    JoinedLine(e);
    TrimAround(l, e.name + ['='] + e.value, r);
    CutJoined(e);
  }

  lemma NothingGiven(item: SpecItem, text: string)
    requires ItemText(item, text) && !item.Given?
    ensures SpecEntry(text) == None
  {
    TrimSpaceTrims(text);
    var kv := TrimSpace(text);
    if item.NoEquals? {
      assert !Contains(kv, '=');
    } else {
      var core := "=" + item.value;
      TrimLeftSpaces(item.before, core);
      assert TrimLeft(core) == core;
      TrimRightIsPrefix(core);
      if kv != "" {
        assert kv[0] == '=' && kv[..0] == "";
        assert IndexOf(kv, '=') == 0 && TrimSpace("") == "";
      }
    }
  }

  /** A comment or a blank line of the file says nothing. */
  lemma CommentLine(l: seq<string>, text: string, r: seq<string>)
    requires AllSpace(l) && AllSpace(r)
    ensures LineEntry(Spaces(l) + ("#" + text)) == None
    ensures LineEntry(Spaces(r)) == None
  {
    var core := "#" + text;
    TrimLeftSpaces(l, core);
    assert TrimLeft(core) == core;
    TrimRightIsPrefix(core);
    TrimBlank(r);
  }

  /** The value the last given entry of a name has. */
  function LastGiven(items: seq<SpecItem>, name: string): Option<string>
  {
    if items == [] then None
    else
      var item := items[|items| - 1];
      if item.Given? && item.entry.name == name then Some(item.entry.value) else LastGiven(items[..|items| - 1], name)
  }

  lemma {:induction false} SpecGives(items: seq<SpecItem>, env: seq<string>, name: string)
    requires |env| == |items| && forall i | 0 <= i < |env| :: ItemText(items[i], env[i])
    ensures LastValue(SpecEntries(env), name) == LastGiven(items, name)
    ensures forall e | e in SpecEntries(env) :: Storable(e)
    decreases |env|
  {
    if env != [] {
      var n := |env| - 1;
      SpecGives(items[..n], env[..n], name);
      match items[n] {
        case Given(e, l, r) =>
          GivenEntry(e, l, r);
          assert (SpecEntries(env[..n]) + [e])[..|SpecEntries(env[..n])|] == SpecEntries(env[..n]);
        case _ =>
          NothingGiven(items[n], env[n]);
          assert SpecEntries(env[..n]) + [] == SpecEntries(env[..n]);
      }
    }
  }

  lemma {:induction false} LastGivenIs(items: seq<SpecItem>, name: string)
    ensures LastGiven(items, name).None? ==> forall i | 0 <= i < |items| && items[i].Given? :: items[i].entry.name != name
    ensures forall i | 0 <= i < |items| && items[i].Given? && items[i].entry.name == name
                       && (forall j | i < j < |items| && items[j].Given? :: items[j].entry.name != name) ::
              LastGiven(items, name) == Some(items[i].entry.value)
    ensures (forall i | 0 <= i < |items| && items[i].Given? :: items[i].entry.name != name) ==> LastGiven(items, name).None?
  {
    if items != [] {
      LastGivenIs(items[..|items| - 1], name);
      assert forall i | 0 <= i < |items| - 1 :: items[..|items| - 1][i] == items[i];
    }
  }

  /** A write of a spec, read back from the file it leaves: every name the spec gives has
      the value given last, every other key of the file its old value, in the file's order. */
  method WriteSpec(store: EnvStore, env: seq<string>, ghost items: seq<SpecItem>)
    requires |env| == |items| && forall i | 0 <= i < |env| :: ItemText(items[i], env[i])
    modifies store
    ensures store.file.Some?
    ensures forall i | 0 <= i < |items| && items[i].Given?
                       && (forall j | i < j < |items| && items[j].Given? :: items[j].entry.name != items[i].entry.name) ::
              Lookup(Parse(store.file.value), items[i].entry.name) == Some(items[i].entry.value)
    ensures forall n | (forall i | 0 <= i < |items| && items[i].Given? :: items[i].entry.name != n) ::
              Lookup(Parse(store.file.value), n) == Lookup(ParseFile(old(store.file)), n)
    ensures ParseFile(old(store.file)).order <= Parse(store.file.value).order
  {
    ghost var file := store.file;
    store.Write(env, true, true);
    SpecGives(items, env, "");
    StorableSpecSuffices(file, env);
    WriteReadsBack(file, env);
    forall n
      ensures Lookup(Parse(store.file.value), n) ==
                if LastGiven(items, n).Some? then LastGiven(items, n) else Lookup(ParseFile(file), n)
    {
      SpecGives(items, env, n);
    }
    forall i | 0 <= i < |items| && items[i].Given?
               && (forall j | i < j < |items| && items[j].Given? :: items[j].entry.name != items[i].entry.name)
      ensures Lookup(Parse(store.file.value), items[i].entry.name) == Some(items[i].entry.value)
    {
      LastGivenIs(items, items[i].entry.name);
    }
    forall n | (forall i | 0 <= i < |items| && items[i].Given? :: items[i].entry.name != n)
      ensures Lookup(Parse(store.file.value), n) == Lookup(ParseFile(file), n)
    {
      LastGivenIs(items, n);
    }
  }
}
