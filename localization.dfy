/** The translation catalogues of mod_update/localization/__init__.py:
    `_po_parse` reads a PO file into a table from (context, message id) to
    translated text, and `extend` merges the tables of the bundled PO files
    into the add-on's translation dictionary.

    The regular expression that finds entries is modelled as a line reader:
    every line that is not blank is either a `msgctxt`, `msgid` or `msgstr`
    field with a quoted value, or something else, and an entry is an optional
    context field, an id field and a string field on consecutive such lines. */
module Localization {
  import opened Wrappers
  import Text

  type Key = (string, string)
  type Table = map<Key, string>

  /** `\s` for the characters found in PO files. */
  predicate IsSpace(c: char) {
    c == ' ' || c == '\t' || c == '\n' || c == '\r' || c == '\U{b}' || c == '\U{c}'
  }

  function SkipSpace(s: string): (t: string)
    ensures |t| <= |s| && t == s[|s| - |t|..]
    ensures t == [] || !IsSpace(t[0])
    decreases |s|
  {
    if s != [] && IsSpace(s[0]) then SkipSpace(s[1..]) else s
  }

  /** The index of the last c in s. */
  function LastIndex(s: string, c: char): (j: Option<nat>)
    ensures j.Some? ==> j.value < |s| && s[j.value] == c && forall i :: j.value < i < |s| ==> s[i] != c
    ensures j.None? ==> forall i :: 0 <= i < |s| ==> s[i] != c
    decreases |s|
  {
    if s == [] then None
    else if s[|s| - 1] == c then Some(|s| - 1)
    else LastIndex(s[..|s| - 1], c)
  }

  datatype Keyword = Ctxt | Id | Str

  function KeywordName(k: Keyword): string {
    match k
    case Ctxt => "msgctxt"
    case Id => "msgid"
    case Str => "msgstr"
  }

  /** A line of the PO text as the entry reader sees it. */
  datatype Line = Field(kw: Keyword, value: string) | Blank | Other

  predicate StartsWith(s: string, p: string) {
    |p| <= |s| && s[..|p|] == p
  }

  /** What follows a keyword: spaces, then a value running from the first
      quote to the last quote of the line; `msgctxt` and `msgid` values are
      not empty (`(.+)`), a `msgstr` value may be (`(.*)`).  After a
      `msgctxt` or `msgid` value the pattern goes on with `\s*` and the next
      keyword, so only spaces may follow its last quote. */
  function FieldAfter(k: Keyword, rest: string): Line {
    var r := SkipSpace(rest);
    if r == [] || r[0] != '"' then Other
    else
      match LastIndex(r[1..], '"')
      case None => Other
      case Some(q) =>
        var value := r[1..][..q];
        if k != Str && (value == [] || SkipSpace(r[1..][q + 1..]) != []) then Other
        else Field(k, value)
  }

  function ParseLine(line: string): Line {
    var s := SkipSpace(line);
    if s == [] then Blank
    else if StartsWith(s, "msgctxt") then FieldAfter(Ctxt, s[7..])
    else if StartsWith(s, "msgid") then FieldAfter(Id, s[5..])
    else if StartsWith(s, "msgstr") then FieldAfter(Str, s[6..])
    else Other
  }

  /** The lines that are not blank, each read by `read`. */
  function Gather(read: string -> Line, ls: seq<string>): seq<Line>
    decreases |ls|
  {
    if ls == [] then []
    else
      var l := read(ls[0]);
      (if l.Blank? then [] else [l]) + Gather(read, ls[1..])
  }

  function Lines(ls: seq<string>): seq<Line> {
    Gather(ParseLine, ls)
  }

  /** One match of the entry pattern: the context ("" when it is absent),
      the message id and the translated text. */
  datatype Entry = Entry(ctxt: string, key: string, msg: string)

  predicate IsField(l: Line, k: Keyword) {
    l.Field? && l.kw == k
  }

  /** The matches, left to right and without overlap; a line that starts no
      match is passed over. */
  function Entries(ls: seq<Line>): seq<Entry>
    decreases |ls|
  {
    if ls == [] then []
    else if |ls| >= 3 && IsField(ls[0], Ctxt) && IsField(ls[1], Id) && IsField(ls[2], Str) then
      [Entry(ls[0].value, ls[1].value, ls[2].value)] + Entries(ls[3..])
    else if |ls| >= 2 && IsField(ls[0], Id) && IsField(ls[1], Str) then
      [Entry("", ls[0].value, ls[1].value)] + Entries(ls[2..])
    else Entries(ls[1..])
  }

  /** `s.replace("\\n", "\n")`: an escaped newline becomes a newline. */
  function Unescape(s: string): string {
    Text.Replace(s, "\\n", "\n")
  }

  /** `text.replace('"\n"', "")`: a string continued on the next line is joined. */
  function JoinContinued(text: string): string {
    Text.Replace(text, "\"\n\"", "")
  }

  /** The key of an entry in the table: a missing context becomes "*". */
  function KeyOf(e: Entry): Key {
    (if e.ctxt == "" then "*" else e.ctxt, Unescape(e.key))
  }

  /** The dictionary comprehension: every entry with a non-empty text, in
      order, a later one overwriting an earlier one with the same key. */
  function TableOf(es: seq<Entry>): (t: Table)
    ensures forall k :: k in t ==> t[k] != ""
    decreases |es|
  {
    if es == [] then map[]
    else
      var t := TableOf(es[..|es| - 1]);
      var e := es[|es| - 1];
      if e.msg == "" then t
      else
        UnescapeNonEmpty(e.msg);
        t[KeyOf(e) := Unescape(e.msg)]
  }

  /** `_po_parse(text)` */
  function PoParse(text: string): Table {
    TableOf(Entries(Lines(Text.Split(JoinContinued(text), '\n'))))
  }

  /** Unescaping keeps a text non-empty. */
  lemma UnescapeNonEmpty(s: string)
    requires s != ""
    ensures Unescape(s) != ""
  {
  }

  /** A key is in the table exactly when some entry with a non-empty text has it. */
  lemma {:induction false} TableKeys(es: seq<Entry>, k: Key)
    ensures k in TableOf(es) <==> exists i :: 0 <= i < |es| && es[i].msg != "" && KeyOf(es[i]) == k
    decreases |es|
  {
    if es != [] {
      var init := es[..|es| - 1];
      TableKeys(init, k);
      if exists i :: 0 <= i < |init| && init[i].msg != "" && KeyOf(init[i]) == k {
        var i :| 0 <= i < |init| && init[i].msg != "" && KeyOf(init[i]) == k;
        assert es[i] == init[i];
      }
      if exists i :: 0 <= i < |es| && es[i].msg != "" && KeyOf(es[i]) == k {
        var i :| 0 <= i < |es| && es[i].msg != "" && KeyOf(es[i]) == k;
        if i < |init| {
          assert init[i] == es[i];
        }
      }
    }
  }

  /** The text of a key is that of the last entry with a non-empty text and that key. */
  lemma {:induction false} TableLastWins(es: seq<Entry>, i: nat)
    requires i < |es| && es[i].msg != ""
    requires forall j :: i < j < |es| && es[j].msg != "" ==> KeyOf(es[j]) != KeyOf(es[i])
    ensures KeyOf(es[i]) in TableOf(es) && TableOf(es)[KeyOf(es[i])] == Unescape(es[i].msg)
    decreases |es|
  {
    if i < |es| - 1 {
      var init := es[..|es| - 1];
      assert init[i] == es[i];
      forall j | i < j < |init| && init[j].msg != "" ensures KeyOf(init[j]) != KeyOf(init[i]) {
        assert init[j] == es[j];
      }
      TableLastWins(init, i);
    }
  }

  /** An escaped newline between two texts without escapes becomes a newline. */
  lemma UnescapeNewline(x: string, y: string)
    requires forall i: nat :: !Text.OccursAt(x, i, "\\n")
    requires forall i: nat :: !Text.OccursAt(y, i, "\\n")
    ensures Unescape(x + "\\n" + y) == x + "\n" + y
  {
    var pat := "\\n";
    forall i: nat | i < |x| ensures !Text.OccursAt(x + pat + y, i, pat) {
      if i + 1 < |x| {
        assert (x + pat + y)[i..i + 2] == x[i..i + 2];
        assert !Text.OccursAt(x, i, pat);
      } else {
        assert (x + pat + y)[i + 1] == '\\';
      }
    }
    Text.ReplaceFirst(x, y, pat, "\n");
    Text.ReplaceAbsent(y, pat, "\n");
  }

  /** A string continued on the next line is read as one string. */
  lemma JoinContinuedLine(x: string, y: string)
    requires forall i: nat :: !Text.OccursAt(x + "\"\n\"" + y, i, "\"\n\"") || i >= |x|
    ensures JoinContinued(x + "\"\n\"" + y) == x + JoinContinued(y)
  {
    Text.ReplaceFirst(x, y, "\"\n\"", "");
    assert x + "" == x;
  }

  // ---- Writing entries, and reading them back ----

  /** A field line as a PO file writes it. */
  function FieldLine(k: Keyword, value: string): string {
    KeywordName(k) + Quoted(value)
  }

  function Quoted(value: string): string {
    " \"" + value + "\""
  }

  /** The lines of an entry: the context line only when there is a context. */
  function EntryLines(e: Entry): seq<string> {
    (if e.ctxt == "" then [] else [FieldLine(Ctxt, e.ctxt)]) + [FieldLine(Id, e.key), FieldLine(Str, e.msg)]
  }

  function WriteLines(es: seq<Entry>): seq<string>
    decreases |es|
  {
    if es == [] then [] else EntryLines(es[0]) + WriteLines(es[1..])
  }

  /** A quoted value after one space is read as that value. */
  lemma FieldAfterQuoted(k: Keyword, value: string)
    requires value != "" || k == Str
    ensures FieldAfter(k, Quoted(value)) == Field(k, value)
  {
    var rest := Quoted(value);
    var r := rest[1..];
    assert r == "\"" + value + "\"";
    assert SkipSpace(r) == r;
    assert SkipSpace(rest) == r;
    assert r[1..] == value + "\"";
    assert LastIndex(r[1..], '"') == Some(|value|);
    assert r[1..][..|value|] == value;
  }

  /** Characters other than c after s do not move its last c. */
  lemma {:induction false} LastIndexIgnoresTail(s: string, c: char, tail: string)
    requires c !in tail
    ensures LastIndex(s + tail, c) == LastIndex(s, c)
    decreases |tail|
  {
    if tail != [] {
      var st := s + tail;
      assert st[|st| - 1] == tail[|tail| - 1];
      assert st[..|st| - 1] == s + tail[..|tail| - 1];
      LastIndexIgnoresTail(s, c, tail[..|tail| - 1]);
    } else {
      assert s + tail == s;
    }
  }

  /** The space before a quoted value is skipped. */
  lemma {:induction false} SkipQuoted(value: string, tail: string)
    ensures SkipSpace(Quoted(value) + tail) == "\"" + value + "\"" + tail
  {
    var r := "\"" + value + "\"" + tail;
    assert Quoted(value) + tail == [' '] + r;
    assert ([' '] + r)[1..] == r;
    assert r[0] == '"';
  }

  /** The closing quote of a quoted value is the last quote of the line
      when the text after it holds none. */
  lemma {:induction false} ClosingQuoteLast(value: string, tail: string)
    requires '"' !in tail
    ensures LastIndex(value + "\"" + tail, '"') == Some(|value|)
  {
    var v := value + "\"";
    assert value + "\"" + tail == v + tail;
    LastIndexIgnoresTail(v, '"', tail);
    assert v[|v| - 1] == '"';
  }

  /** Text after the closing quote of a context or an id stops the line
      from starting a match, while a text line ignores it. */
  lemma {:induction false} FieldAfterTrailing(k: Keyword, value: string, tail: string)
    requires value != "" && '"' !in tail && tail != [] && !IsSpace(tail[0])
    ensures FieldAfter(k, Quoted(value) + tail) == if k == Str then Field(Str, value) else Other
  {
    SkipQuoted(value, tail);
    ClosingQuoteLast(value, tail);
    var r := "\"" + value + "\"" + tail;
    assert r[1..] == value + "\"" + tail;
    assert r[1..][..|value|] == value;
    assert r[1..][|value| + 1..] == tail;
    assert SkipSpace(tail) == tail;
  }

  /** A line that opens with a keyword is read as that keyword's field. */
  lemma ParseKeyword(k: Keyword, rest: string)
    ensures ParseLine(KeywordName(k) + rest) == FieldAfter(k, rest)
  {
    var line := KeywordName(k) + rest;
    var n := |KeywordName(k)|;
    assert line[0] == 'm';
    assert SkipSpace(line) == line;
    assert line[..n] == KeywordName(k);
    assert line[n..] == rest;
    match k {
      case Ctxt =>
      case Id =>
        assert line[3] == 'i';
        assert !StartsWith(line, "msgctxt");
      case Str =>
        assert line[3] == 's';
        assert !StartsWith(line, "msgctxt");
        assert !StartsWith(line, "msgid");
    }
  }

  lemma ParseFieldLine(k: Keyword, value: string)
    requires value != "" || k == Str
    ensures ParseLine(FieldLine(k, value)) == Field(k, value)
  {
    ParseKeyword(k, Quoted(value));
    FieldAfterQuoted(k, value);
  }

  /** An entry that a PO file can hold: a non-empty id and no line breaks. */
  predicate Writable(e: Entry) {
    e.key != "" && '\n' !in e.ctxt && '\n' !in e.key && '\n' !in e.msg
  }

  /** The fields an entry's lines are read as. */
  function EntryFields(e: Entry): seq<Line> {
    (if e.ctxt == "" then [] else [Field(Ctxt, e.ctxt)]) + [Field(Id, e.key), Field(Str, e.msg)]
  }

  lemma {:induction false} GatherAppend(read: string -> Line, a: seq<string>, b: seq<string>)
    ensures Gather(read, a + b) == Gather(read, a) + Gather(read, b)
    decreases |a|
  {
    if a == [] {
      assert a + b == b;
    } else {
      assert (a + b)[0] == a[0];
      assert (a + b)[1..] == a[1..] + b;
      GatherAppend(read, a[1..], b);
    }
  }

  lemma GatherCons(read: string -> Line, l: string, rest: seq<string>)
    ensures Gather(read, [l] + rest) == (if read(l).Blank? then [] else [read(l)]) + Gather(read, rest)
  {
    assert ([l] + rest)[1..] == rest;
  }

  /** An entry's lines are read as its fields. */
  lemma LinesOfEntry(e: Entry)
    requires Writable(e)
    ensures Lines(EntryLines(e)) == EntryFields(e)
  {
    var id, str := FieldLine(Id, e.key), FieldLine(Str, e.msg);
    ParseFieldLine(Id, e.key);
    ParseFieldLine(Str, e.msg);
    GatherCons(ParseLine, str, []);
    GatherCons(ParseLine, id, [str]);
    assert Gather(ParseLine, [id, str]) == [Field(Id, e.key), Field(Str, e.msg)];
    if e.ctxt != "" {
      var ctxt := FieldLine(Ctxt, e.ctxt);
      ParseFieldLine(Ctxt, e.ctxt);
      GatherCons(ParseLine, ctxt, [id, str]);
      assert EntryLines(e) == [ctxt] + [id, str];
    } else {
      assert EntryLines(e) == [id, str];
    }
  }

  /** The entry reader takes an entry's fields as that entry. */
  lemma EntriesOfFields(e: Entry, tail: seq<Line>)
    requires e.key != ""
    ensures Entries(EntryFields(e) + tail) == [e] + Entries(tail)
  {
    var ls := EntryFields(e) + tail;
    if e.ctxt == "" {
      assert ls[2..] == tail;
    } else {
      assert ls[3..] == tail;
    }
  }

  /** Reading written lines gives back the entries. */
  lemma {:induction false} ReadWritten(es: seq<Entry>)
    requires forall i :: 0 <= i < |es| ==> Writable(es[i])
    ensures Entries(Lines(WriteLines(es))) == es
    decreases |es|
  {
    if es != [] {
      var e := es[0];
      GatherAppend(ParseLine, EntryLines(e), WriteLines(es[1..]));
      LinesOfEntry(e);
      EntriesOfFields(e, Lines(WriteLines(es[1..])));
      ReadWritten(es[1..]);
      assert es == [e] + es[1..];
    }
  }

  /** A written line opens with its keyword and holds no line break. */
  predicate PlainLine(l: string) {
    l != [] && l[0] == 'm' && '\n' !in l
  }

  lemma FieldLinePlain(k: Keyword, value: string)
    requires '\n' !in value
    ensures PlainLine(FieldLine(k, value))
  {
    assert '\n' !in KeywordName(k);
    assert '\n' !in Quoted(value);
  }

  lemma {:induction false} WrittenPlain(es: seq<Entry>)
    requires forall i :: 0 <= i < |es| ==> Writable(es[i])
    ensures es != [] ==> WriteLines(es) != []
    ensures forall k :: 0 <= k < |WriteLines(es)| ==> PlainLine(WriteLines(es)[k])
    decreases |es|
  {
    if es != [] {
      var e := es[0];
      FieldLinePlain(Ctxt, e.ctxt);
      FieldLinePlain(Id, e.key);
      FieldLinePlain(Str, e.msg);
      var head := EntryLines(e);
      assert forall k :: 0 <= k < |head| ==> PlainLine(head[k]);
      WrittenPlain(es[1..]);
      var tail := WriteLines(es[1..]);
      assert WriteLines(es) == head + tail;
      forall k | 0 <= k < |head + tail| ensures PlainLine((head + tail)[k]) {
        if k >= |head| {
          assert (head + tail)[k] == tail[k - |head|];
        }
      }
    }
  }

  /** Written lines joined by line breaks hold no continued string. */
  lemma {:induction false} NoContinued(ls: seq<string>)
    requires forall k :: 0 <= k < |ls| ==> PlainLine(ls[k])
    ensures JoinContinued(Text.Join(ls, '\n')) == Text.Join(ls, '\n')
  {
    var text := Text.Join(ls, '\n');
    Text.JoinOpeners(ls, '\n', '"');
    forall i: nat ensures !Text.OccursAt(text, i, "\"\n\"") {
      if i + 3 <= |text| {
        assert text[i..i + 3][1] == text[i + 1] && text[i..i + 3][2] == text[i + 2];
      }
    }
    Text.ReplaceAbsent(text, "\"\n\"", "");
  }

  /** An empty text has no entries. */
  lemma PoParseEmpty()
    ensures PoParse("") == map[]
  {
    assert JoinContinued("") == "";
    assert Text.Split("", '\n') == [""];
    assert ParseLine("") == Blank;
    assert Lines([""]) == [];
  }

  /** `_po_parse` of the text of written entries, one line each joined with
      line breaks, is the table of those entries: no continued string is
      joined, and every entry is read back in order. */
  lemma {:induction false} PoParseWritten(es: seq<Entry>)
    requires forall i :: 0 <= i < |es| ==> Writable(es[i])
    ensures PoParse(Text.Join(WriteLines(es), '\n')) == TableOf(es)
  {
    if es == [] {
      PoParseEmpty();
    } else {
      var ls := WriteLines(es);
      WrittenPlain(es);
      NoContinued(ls);
      Text.SplitJoin(ls, '\n');
      ReadWritten(es);
    }
  }

  // ---- `extend` ----

  /** One bundled PO file as `_walk` yields it: its stem (the language
      code) and the table `_po_parse` reads from its text. */
  datatype Catalogue = Catalogue(language: string, table: Table)

  /** One step of `extend`: a language already present gets the
      catalogue's table merged in, the catalogue's texts winning; other
      languages are ignored. */
  function MergeOne(d: map<string, Table>, c: Catalogue): (r: map<string, Table>)
    ensures r.Keys == d.Keys
  {
    if c.language in d then d[c.language := d[c.language] + c.table] else d
  }

  /** The dictionary after `extend` has gone over the catalogues in order. */
  function Merge(d: map<string, Table>, cs: seq<Catalogue>): (r: map<string, Table>)
    ensures r.Keys == d.Keys
    decreases |cs|
  {
    if cs == [] then d else MergeOne(Merge(d, cs[..|cs| - 1]), cs[|cs| - 1])
  }

  /** A step for another language leaves a table as it was; a step for its
      language keeps its keys and takes the catalogue's texts. */
  lemma MergeOneAt(d: map<string, Table>, c: Catalogue, lang: string, k: Key)
    requires lang in d
    ensures c.language != lang ==> MergeOne(d, c)[lang] == d[lang]
    ensures c.language == lang ==> MergeOne(d, c)[lang] == d[lang] + c.table
    ensures k in d[lang] ==> k in MergeOne(d, c)[lang]
    ensures k in MergeOne(d, c)[lang] && (c.language != lang || k !in c.table) ==>
      k in d[lang] && MergeOne(d, c)[lang][k] == d[lang][k]
  {
  }

  /** A language no catalogue is for keeps its table. */
  lemma {:induction false} MergeUntouched(d: map<string, Table>, cs: seq<Catalogue>, lang: string)
    requires lang in d
    requires forall i :: 0 <= i < |cs| ==> cs[i].language != lang
    ensures Merge(d, cs)[lang] == d[lang]
    decreases |cs|
  {
    if cs != [] {
      MergeUntouched(d, cs[..|cs| - 1], lang);
      MergeOneAt(Merge(d, cs[..|cs| - 1]), cs[|cs| - 1], lang, ("", ""));
    }
  }

  /** Merging never loses a key of a language's table. */
  lemma {:induction false} MergeKeepsKeys(d: map<string, Table>, cs: seq<Catalogue>, lang: string, k: Key)
    requires lang in d && k in d[lang]
    ensures k in Merge(d, cs)[lang]
    decreases |cs|
  {
    if cs != [] {
      MergeKeepsKeys(d, cs[..|cs| - 1], lang, k);
      MergeOneAt(Merge(d, cs[..|cs| - 1]), cs[|cs| - 1], lang, k);
    }
  }

  /** A text no catalogue for its language has is kept. */
  lemma {:induction false} MergeKeepsText(d: map<string, Table>, cs: seq<Catalogue>, lang: string, k: Key)
    requires lang in d && k in d[lang]
    requires forall j :: 0 <= j < |cs| && cs[j].language == lang ==> k !in cs[j].table
    ensures k in Merge(d, cs)[lang] && Merge(d, cs)[lang][k] == d[lang][k]
    decreases |cs|
  {
    if cs != [] {
      var init := cs[..|cs| - 1];
      forall j | 0 <= j < |init| && init[j].language == lang ensures k !in init[j].table {
        assert init[j] == cs[j];
      }
      MergeKeepsText(d, init, lang, k);
      MergeOneAt(Merge(d, init), cs[|cs| - 1], lang, k);
    }
  }

  /** A key keeps the text of the last catalogue for its language that has it. */
  lemma {:induction false} MergeLastWins(d: map<string, Table>, cs: seq<Catalogue>, i: nat, k: Key)
    requires i < |cs| && cs[i].language in d && k in cs[i].table
    requires forall j :: i < j < |cs| && cs[j].language == cs[i].language ==> k !in cs[j].table
    ensures k in Merge(d, cs)[cs[i].language] && Merge(d, cs)[cs[i].language][k] == cs[i].table[k]
    decreases |cs|
  {
    var init := cs[..|cs| - 1];
    var lang := cs[i].language;
    MergeOneAt(Merge(d, init), cs[|cs| - 1], lang, k);
    if i < |cs| - 1 {
      assert init[i] == cs[i];
      forall j | i < j < |init| && init[j].language == init[i].language ensures k !in init[j].table {
        assert init[j] == cs[j];
      }
      MergeLastWins(d, init, i, k);
    }
  }

  /** The add-on's translation dictionary, which `extend` updates in place. */
  class Translations {
    var tables: map<string, Table>

    constructor (tables: map<string, Table>)
      ensures this.tables == tables
    {
      this.tables := tables;
    }

    /** `extend(d)`: the loop over the (stem, table) pairs of `_walk()`. */
    method Extend(catalogues: seq<Catalogue>)
      modifies this
      ensures tables == Merge(old(tables), catalogues)
    {
      for i := 0 to |catalogues|
        invariant tables == Merge(old(tables), catalogues[..i])
      {
        var k, v := catalogues[i].language, catalogues[i].table;
        if k in tables {
          tables := tables[k := tables[k] + v];
        }
        assert catalogues[..i + 1][..i] == catalogues[..i];
      }
      assert catalogues[..|catalogues|] == catalogues;
    }
  }
}
