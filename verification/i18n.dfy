/** The INI-driven translation table of `i18n.h`: `trim`, the per-line parse
    of `load_language`, the table of at most `MAX_STRINGS` pairs, the `_`
    lookup, and the language-file paths built by `init_i18n` and
    `switch_language`. A language file is the sequence of lines `fgets`
    returns (each with its newline, when it has one); the file system is a
    map from path to file, a missing path being a file `fopen` cannot open.
    Characters stand for bytes. */
module I18n {
  import opened Wrappers
  import opened CLib

  /** `MAX_STRINGS`: the table's capacity. */
  const MaxStrings := 1000
  /** `MAX_PATH_LEN`: the size of every path buffer, terminator included. */
  const MaxPathLen := 512
  /** `sizeof(g_i18n.current_lang)`. */
  const LangNameSize := 32

  datatype Entry = Entry(key: string, translation: string)

  /** `I18N_Config`: the pairs `strings[i]`/`translations[i]` for `i < count`,
      the current language and the directory of the language files. */
  datatype Config = Config(entries: seq<Entry>, currentLang: string, langPath: string)

  /** `static I18N_Config g_i18n = {0}`. */
  const Initial := Config([], "", "")

  // ---------------------------------------------------------------------
  // trim

  /** The number of white-space characters `s` starts with. */
  function LeadingSpace(s: string): (n: nat)
    ensures n <= |s|
    ensures forall i :: 0 <= i < n ==> IsSpace(s[i])
    ensures n < |s| ==> !IsSpace(s[n])
  {
    if |s| > 0 && IsSpace(s[0]) then 1 + LeadingSpace(s[1..]) else 0
  }

  /** The number of white-space characters `s` ends with. */
  function TrailingSpace(s: string): (n: nat)
    ensures n <= |s|
    ensures forall i :: |s| - n <= i < |s| ==> IsSpace(s[i])
    ensures n < |s| ==> !IsSpace(s[|s| - n - 1])
  {
    if |s| > 0 && IsSpace(s[|s| - 1]) then 1 + TrailingSpace(s[..|s| - 1]) else 0
  }

  /** `trim`: the string between its leading and its trailing white space.
      It neither starts nor ends with white space, and everything of `s`
      after it is white space; `TrimIsSlice` says where it sits in `s`. */
  function Trim(s: string): (r: string)
    ensures LeadingSpace(s) + |r| <= |s|
    ensures forall i :: LeadingSpace(s) + |r| <= i < |s| ==> IsSpace(s[i])
    ensures |r| > 0 ==> !IsSpace(r[0]) && !IsSpace(r[|r| - 1])
  {
    var lo := LeadingSpace(s);
    var t := s[lo..];
    var n := TrailingSpace(t);
    assert forall i :: lo + |t| - n <= i < |s| ==> s[i] == t[i - lo];
    t[..|t| - n]
  }

  /** `trim` returns a contiguous piece of its argument, starting right after
      the leading white space. */
  lemma TrimIsSlice(s: string)
    ensures Trim(s) == s[LeadingSpace(s)..LeadingSpace(s) + |Trim(s)|]
  {
  }

  /** A string that neither starts nor ends with white space. */
  predicate Trimmed(s: string) {
    |s| == 0 || (!IsSpace(s[0]) && !IsSpace(s[|s| - 1]))
  }

  lemma TrimOfTrimmed(s: string)
    requires Trimmed(s)
    ensures Trim(s) == s
  {
    assert LeadingSpace(s) == 0;
    assert TrailingSpace(s) == 0;
    assert s[0..] == s;
  }

  /** Trimming only removes characters: what is not in `s` is not in `trim(s)`. */
  lemma TrimAddsNothing(s: string, c: char)
    ensures c in Trim(s) ==> c in s
  {
    var r := Trim(s);
    var lo := LeadingSpace(s);
    TrimIsSlice(s);
    forall i | 0 <= i < |r|
      ensures r[i] == s[lo + i]
    {
    }
  }

  /** Trimming twice is trimming once. */
  lemma TrimIdempotent(s: string)
    ensures Trim(Trim(s)) == Trim(s)
  {
    var r := Trim(s);
    assert LeadingSpace(r) == 0;
    assert TrailingSpace(r) == 0;
  }

  // ---------------------------------------------------------------------
  // One line of a language file

  /** `strchr(s, c)`: the index of the first `c`. */
  function Find(s: string, c: char): (r: Option<nat>)
    ensures r.None? <==> c !in s
    ensures r.Some? ==> r.value < |s| && s[r.value] == c && c !in s[..r.value]
  {
    if |s| == 0 then None
    else if s[0] == c then Some(0)
    else match Find(s[1..], c)
      case None => None
      case Some(k) =>
        assert s[..k + 1] == [s[0]] + s[1..][..k];
        Some(k + 1)
  }

  /** A line the loader skips before looking for `=`: a `;` or `#` comment,
      or an empty line. */
  predicate Skipped(line: string) {
    |line| > 0 && (line[0] == ';' || line[0] == '#' || line[0] == '\n')
  }

  /** The pair a line holds when cut at index `k` (its first `=`): the
      trimmed key before it and the trimmed value after it, cut at a newline. */
  function SplitAt(line: string, k: nat): (e: Entry)
    requires k < |line|
    ensures '=' !in line[..k] ==> '=' !in e.key
    ensures '\n' !in e.translation
  {
    TrimAddsNothing(line[..k], '=');
    Entry(Trim(line[..k]), UntilNewline(Trim(line[k + 1..])))
  }

  /** The body of the `while (fgets(...))` loop for one line: a skipped line
      or a line without `=` gives nothing; otherwise the line is cut at its
      first `=`, both halves are trimmed, and the value is cut at a newline. */
  function ParseLine(line: string): (r: Option<Entry>)
    ensures r.None? <==> Skipped(line) || '=' !in line
    ensures r.Some? ==> '=' !in r.value.key && '\n' !in r.value.translation
    ensures r.Some? ==> Find(line, '=').Some? && r.value == SplitAt(line, Find(line, '=').value)
  {
    if Skipped(line) then None
    else match Find(line, '=')
      case None => None
      case Some(k) => Some(SplitAt(line, k))
  }

  /** An entry as a line of a language file. */
  function FormatEntry(e: Entry): string {
    e.key + "=" + e.translation + "\n"
  }

  /** The entries a line can carry unchanged: already trimmed, no `=` in the
      key, no newline in the value, and not mistaken for a comment. */
  predicate Writable(e: Entry) {
    && Trimmed(e.key) && Trimmed(e.translation)
    && '=' !in e.key && '\n' !in e.translation
    && (|e.key| == 0 || (e.key[0] != ';' && e.key[0] != '#' && e.key[0] != '\n'))
  }

  lemma TrimDropsNewline(v: string)
    requires Trimmed(v) && '\n' !in v
    ensures Trim(v + "\n") == v
  {
    var t := v + "\n";
    if |v| == 0 {
      assert LeadingSpace(t) == 1;
    } else {
      assert LeadingSpace(t) == 0;
      assert t[..|t| - 1] == v;
      assert TrailingSpace(v) == 0;
      assert TrailingSpace(t) == 1;
      assert t[0..] == t;
    }
  }

  /** Where a formatted line splits: at the `=` after the key. */
  lemma FormattedSplit(e: Entry)
    requires Writable(e)
    ensures var line := FormatEntry(e); var k := |e.key|;
      && !Skipped(line) && Find(line, '=') == Some(k)
      && line[..k] == e.key && line[k + 1..] == e.translation + "\n"
  {
    var line := FormatEntry(e);
    var k := |e.key|;
    assert line[k] == '=';
    assert line[..k] == e.key;
    assert line[k + 1..] == e.translation + "\n";
  }

  lemma NoNewlineKept(s: string)
    requires '\n' !in s
    ensures UntilNewline(s) == s
  {
    var v := UntilNewline(s);
    assert |v| == |s|;
  }

  /** Writing an entry as `key=value` and parsing the line gives the entry back. */
  lemma ParseFormatted(e: Entry)
    requires Writable(e)
    ensures ParseLine(FormatEntry(e)) == Some(e)
  {
    FormattedSplit(e);
    TrimDropsNewline(e.translation);
    TrimOfTrimmed(e.key);
    NoNewlineKept(e.translation);
  }

  // ---------------------------------------------------------------------
  // The table

  /** Every pair a file holds, in file order, however many. */
  function Pairs(lines: seq<string>): seq<Entry> {
    if |lines| == 0 then []
    else
      Listed(ParseLine(lines[0])) + Pairs(lines[1..])
  }

  /** The first `MaxStrings` of a list of pairs. */
  function Cap(es: seq<Entry>): seq<Entry> {
    if |es| <= MaxStrings then es else es[..MaxStrings]
  }

  /** `if (g_i18n.count < MAX_STRINGS) { ... g_i18n.count++; }`: a pair is
      stored only while there is room. */
  function Store(table: seq<Entry>, p: Option<Entry>): (r: seq<Entry>)
    ensures |table| <= |r| <= |table| + 1 && r[..|table|] == table
    ensures |r| > |table| <==> p.Some? && |table| < MaxStrings
    ensures |r| > |table| ==> r[|table|] == p.value
  {
    match p
    case None => table
    case Some(e) => if |table| < MaxStrings then table + [e] else table
  }

  /** The `fgets` loop of `load_language`, line by line, onto `table`. */
  function LoadLines(lines: seq<string>, table: seq<Entry>): (r: seq<Entry>)
    ensures |table| <= |r| <= |table| + |lines|
    ensures forall i :: 0 <= i < |table| ==> r[i] == table[i]
    ensures |table| <= MaxStrings ==> |r| <= MaxStrings
    decreases |lines|
  {
    if |lines| == 0 then table else LoadLines(lines[1..], Store(table, ParseLine(lines[0])))
  }

  /** The pairs a single parse result contributes. */
  function Listed(p: Option<Entry>): seq<Entry> {
    match p case None => [] case Some(e) => [e]
  }

  /** Storing one parse result and capping later is capping the whole run:
      while there is room the pair is appended, and a full table ignores
      whatever follows. */
  lemma StoreThenCap(table: seq<Entry>, p: Option<Entry>, rest: seq<Entry>)
    requires |table| <= MaxStrings
    ensures Cap(Store(table, p) + rest) == Cap(table + (Listed(p) + rest))
  {
    var ps := Listed(p);
    if |table| < MaxStrings {
      assert Store(table, p) == table + ps;
      assert table + (ps + rest) == (table + ps) + rest;
    } else {
      assert Store(table, p) == table;
      assert (table + rest)[..MaxStrings] == table;
      assert (table + (ps + rest))[..MaxStrings] == table;
    }
  }

  /** The loop keeps the file's first `MaxStrings` pairs, in order, and drops
      the rest. */
  lemma {:induction false} LoadKeepsFirstPairs(lines: seq<string>, table: seq<Entry>)
    requires |table| <= MaxStrings
    ensures LoadLines(lines, table) == Cap(table + Pairs(lines))
    decreases |lines|
  {
    if |lines| == 0 {
      assert table + [] == table;
    } else {
      var p := ParseLine(lines[0]);
      LoadKeepsFirstPairs(lines[1..], Store(table, p));
      StoreThenCap(table, p, Pairs(lines[1..]));
    }
  }

  /** `cleanup_i18n`: the table is emptied; the language and path stay. */
  function Cleanup(cfg: Config): (r: Config)
    ensures |r.entries| == 0 && r.currentLang == cfg.currentLang && r.langPath == cfg.langPath
  {
    cfg.(entries := [])
  }

  datatype Loaded = Loaded(ok: bool, config: Config)

  /** `load_language`: a file that cannot be opened changes nothing and
      reports failure; otherwise the table is cleared and refilled from that
      file alone, with its first `MaxStrings` pairs. */
  function LoadLanguage(cfg: Config, files: map<string, seq<string>>, path: string): (r: Loaded)
    ensures r.ok <==> path in files
    ensures !r.ok ==> r.config == cfg
    ensures r.ok ==> r.config == cfg.(entries := Cap(Pairs(files[path])))
    ensures |r.config.entries| <= MaxStrings || r.config.entries == cfg.entries
  {
    if path !in files then Loaded(false, cfg)
    else
      var c := Cleanup(cfg);
      var lines := files[path];
      LoadKeepsFirstPairs(lines, []);
      assert [] + Pairs(lines) == Pairs(lines);
      Loaded(true, c.(entries := LoadLines(lines, [])))
  }

  /** `_`: the translation of the first entry whose key is `s`, or `s` itself. */
  method Translate(cfg: Config, s: string) returns (r: string)
    ensures (forall i :: 0 <= i < |cfg.entries| ==> cfg.entries[i].key != s) ==> r == s
    ensures forall i ::
      (0 <= i < |cfg.entries| && cfg.entries[i].key == s && forall j :: 0 <= j < i ==> cfg.entries[j].key != s)
      ==> r == cfg.entries[i].translation
  {
    var i := 0;
    while i < |cfg.entries|
      invariant 0 <= i <= |cfg.entries|
      invariant forall j :: 0 <= j < i ==> cfg.entries[j].key != s
    {
      if cfg.entries[i].key == s {
        return cfg.entries[i].translation;
      }
      i := i + 1;
    }
    return s;
  }

  // ---------------------------------------------------------------------
  // Paths

  /** `strncpy` into a buffer of `size` bytes or `snprintf` into one: at
      most `size - 1` characters survive. */
  function Truncate(s: string, size: nat): (r: string)
    requires size > 0
    ensures |r| < size && |r| <= |s| && r == s[..|r|]
    ensures |s| < size ==> r == s
    ensures |s| >= size ==> |r| == size - 1
  {
    if |s| < size then s else s[..size - 1]
  }

  /** `snprintf(full_path, MAX_PATH_LEN, "%s/lang_%s.ini", dir, lang)`. */
  function LangFile(dir: string, lang: string): (p: string)
    ensures |p| < MaxPathLen
  {
    Truncate(dir + "/lang_" + lang + ".ini", MaxPathLen)
  }

  /** The language named by a path of the directory `dir`, if it has the
      shape `dir/lang_<lang>.ini`. */
  function LangOfFile(dir: string, p: string): Option<string> {
    var pre := dir + "/lang_";
    if |p| >= |pre| + 4 && p[..|pre|] == pre && p[|p| - 4..] == ".ini"
    then Some(p[|pre|..|p| - 4]) else None
  }

  /** A path that fits its buffer names its language: the language is read
      back from it, so two languages never share a file. */
  lemma LangFileNamesLang(dir: string, lang: string)
    requires |dir| + |lang| + 10 < MaxPathLen
    ensures LangOfFile(dir, LangFile(dir, lang)) == Some(lang)
  {
    var p := LangFile(dir, lang);
    var pre := dir + "/lang_";
    assert p == pre + lang + ".ini";
    assert p[..|pre|] == pre;
    assert p[|p| - 4..] == ".ini";
    assert p[|pre|..|p| - 4] == lang;
  }

  /** `init_i18n`: the directory is kept (cut to its buffer) whatever
      happens; the language file is loaded; the current language is recorded
      (cut to its buffer) only when the load succeeds. */
  function InitI18n(cfg: Config, files: map<string, seq<string>>, dir: string, lang: string): (r: Loaded)
    ensures r.config.langPath == Truncate(dir, MaxPathLen)
    ensures r.ok <==> LangFile(dir, lang) in files
    ensures r.ok ==> r.config.currentLang == Truncate(lang, LangNameSize)
    ensures r.ok ==> r.config.entries == Cap(Pairs(files[LangFile(dir, lang)]))
    ensures !r.ok ==> r.config.currentLang == cfg.currentLang && r.config.entries == cfg.entries
  {
    var kept := cfg.(langPath := Truncate(dir, MaxPathLen));
    var l := LoadLanguage(kept, files, LangFile(dir, lang));
    if l.ok then Loaded(true, l.config.(currentLang := Truncate(lang, LangNameSize))) else l
  }

  /** `switch_language`: the file of `lang` in the stored directory is
      loaded; the recorded current language is not updated. */
  function SwitchLanguage(cfg: Config, files: map<string, seq<string>>, lang: string): (r: Loaded)
    ensures r.ok <==> LangFile(cfg.langPath, lang) in files
    ensures r.config.currentLang == cfg.currentLang && r.config.langPath == cfg.langPath
    ensures r.ok ==> r.config.entries == Cap(Pairs(files[LangFile(cfg.langPath, lang)]))
    ensures !r.ok ==> r.config == cfg
  {
    LoadLanguage(cfg, files, LangFile(cfg.langPath, lang))
  }

  /** A switch before `init_i18n` looks for the language file at the root:
      the stored directory is still the empty string of `g_i18n = {0}`, and
      a failed switch leaves the table empty. */
  lemma SwitchBeforeInit(files: map<string, seq<string>>, lang: string)
    ensures var r := SwitchLanguage(Initial, files, lang);
      (r.ok <==> Truncate("/lang_" + lang + ".ini", MaxPathLen) in files)
      && (!r.ok ==> r.config == Initial && |r.config.entries| == 0)
    ensures |lang| + 10 < MaxPathLen ==>
      (SwitchLanguage(Initial, files, lang).ok <==> "/lang_" + lang + ".ini" in files)
  {
    assert "" + "/lang_" + lang + ".ini" == "/lang_" + lang + ".ini";
  }

  /** Reloading forgets the previous file: after a successful switch the
      table is the same whatever table was loaded before. */
  lemma SwitchForgetsOldTable(a: Config, b: Config, files: map<string, seq<string>>, lang: string)
    requires a.langPath == b.langPath
    requires SwitchLanguage(a, files, lang).ok
    ensures SwitchLanguage(a, files, lang).config.entries == SwitchLanguage(b, files, lang).config.entries
  {
  }
}
