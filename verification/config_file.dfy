/**
 * The `key=value` configuration of `MainForm`: `LoadConfig` reads lines into
 * the four controls (port, drag time, window name, auto start) and
 * `SaveConfig` writes them back as four lines.  The file itself is left out:
 * a missing file is `None`, an existing one the sequence of its lines.
 */
module ConfigFile {
  import opened Wrappers

  /** The text of the three text boxes and the state of the check box. */
  datatype Config = Config(port: string, dragTime: string, windowName: string, autoStart: bool)

  /** What `LoadConfig` puts in the controls when there is no file. */
  const Defaults := Config("9001", "5000", "VRChat", false)

  /** The controls as the form constructor creates them, before `LoadConfig`. */
  const Blank := Config("", "", "", false)

  // ---------------------------------------------------------------------------
  // The string operations the parser uses
  // ---------------------------------------------------------------------------

  /** `char.IsWhiteSpace`: the Unicode space, line and paragraph separators and the controls U+0009-U+000D, U+0085. */
  predicate IsWhiteSpace(c: char) {
    || ('\U{0009}' <= c <= '\U{000D}') || c == '\U{0020}' || c == '\U{0085}' || c == '\U{00A0}'
    || c == '\U{1680}' || ('\U{2000}' <= c <= '\U{200A}') || c == '\U{2028}' || c == '\U{2029}'
    || c == '\U{202F}' || c == '\U{205F}' || c == '\U{3000}'
  }

  /**
   * The characters a trim removes: white space for `string.Trim()`, and also
   * NUL for the trim inside `bool.Parse` (`nul`).
   */
  predicate Drops(c: char, nul: bool) {
    IsWhiteSpace(c) || (nul && c == '\0')
  }

  /** The first position at or after `from` whose character a trim keeps, or `|s|`. */
  function KeptFrom(s: string, nul: bool, from: nat): (a: nat)
    requires from <= |s|
    ensures from <= a <= |s|
    ensures forall k :: from <= k < a ==> Drops(s[k], nul)
    ensures a < |s| ==> !Drops(s[a], nul)
    decreases |s| - from
  {
    if from == |s| || !Drops(s[from], nul) then from else KeptFrom(s, nul, from + 1)
  }

  /** The end of the kept part: the last position before `hi`, and not before `lo`, whose character a trim keeps, plus one. */
  function KeptUpTo(s: string, nul: bool, lo: nat, hi: nat): (b: nat)
    requires lo <= hi <= |s|
    ensures lo <= b <= hi
    ensures forall k :: b <= k < hi ==> Drops(s[k], nul)
    ensures b > lo ==> !Drops(s[b - 1], nul)
    decreases hi
  {
    if hi == lo || !Drops(s[hi - 1], nul) then hi else KeptUpTo(s, nul, lo, hi - 1)
  }

  /**
   * `string.Trim()` when `nul` is false: `s` without its leading and trailing
   * white space.
   */
  function Trim(s: string, nul: bool): (r: string)
    ensures |r| <= |s|
    ensures r == [] || (!Drops(r[0], nul) && !Drops(r[|r| - 1], nul))
  {
    var a := KeptFrom(s, nul, 0);
    s[a..KeptUpTo(s, nul, a, |s|)]
  }

  /**
   * What a trim removes: the trimmed string is a slice of the input, and all
   * that lies before and after it is droppable.  With the ends of the result
   * not droppable, it is the input without its leading and trailing run.
   */
  lemma TrimStripsEnds(s: string, nul: bool)
    ensures exists a, b ::
              && 0 <= a <= b <= |s| && Trim(s, nul) == s[a..b]
              && (forall k :: 0 <= k < a ==> Drops(s[k], nul))
              && (forall k :: b <= k < |s| ==> Drops(s[k], nul))
  {
    var a := KeptFrom(s, nul, 0);
    var b := KeptUpTo(s, nul, a, |s|);
    assert Trim(s, nul) == s[a..b];
  }

  /** Trimming removes only what is at the ends: a string without droppable ends is its own trim. */
  lemma TrimKeeps(s: string, nul: bool)
    requires s == [] || (!Drops(s[0], nul) && !Drops(s[|s| - 1], nul))
    ensures Trim(s, nul) == s
  {
  }

  /** Trimming twice is trimming once. */
  lemma TrimIdempotent(s: string, nul: bool)
    ensures Trim(Trim(s, nul), nul) == Trim(s, nul)
  {
    TrimKeeps(Trim(s, nul), nul);
  }

  /** `line.Split(sep)`: the pieces between separators, empty ones included. */
  function Split(s: string, sep: char): (parts: seq<string>)
    ensures |parts| >= 1
    ensures forall i :: 0 <= i < |parts| ==> sep !in parts[i]
  {
    if s == [] then [""]
    else
      assert s == [s[0]] + s[1..];
      var rest := Split(s[1..], sep);
      if s[0] == sep then [""] + rest
      else [[s[0]] + rest[0]] + rest[1..]
  }

  /** The inverse of `Split`: the pieces with a separator between each two. */
  function JoinWith(parts: seq<string>, sep: char): string
    requires |parts| >= 1
  {
    if |parts| == 1 then parts[0] else parts[0] + [sep] + JoinWith(parts[1..], sep)
  }

  /** One more part for every separator. */
  lemma {:induction false} SplitCount(s: string, sep: char)
    ensures |Split(s, sep)| == multiset(s)[sep] + 1
  {
    if s != [] {
      SplitCount(s[1..], sep);
      assert s == [s[0]] + s[1..];
      assert multiset(s) == multiset([s[0]]) + multiset(s[1..]);
    }
  }

  lemma {:induction false} JoinSplit(s: string, sep: char)
    ensures JoinWith(Split(s, sep), sep) == s
  {
    if s != [] {
      JoinSplit(s[1..], sep);
      var rest := Split(s[1..], sep);
      if s[0] == sep {
        assert Split(s, sep)[1..] == rest;
      } else {
        if |rest| > 1 {
          assert Split(s, sep)[1..] == rest[1..];
        }
      }
    }
  }

  /** A line splits into exactly two parts iff it holds exactly one separator, and then they are what surrounds it. */
  lemma SplitInTwo(s: string, sep: char)
    ensures |Split(s, sep)| == 2 <==> multiset(s)[sep] == 1
    ensures |Split(s, sep)| == 2 ==> s == Split(s, sep)[0] + [sep] + Split(s, sep)[1]
  {
    SplitCount(s, sep);
    var parts := Split(s, sep);
    if |parts| == 2 {
      JoinSplit(s, sep);
      assert JoinWith(parts, sep) == parts[0] + [sep] + JoinWith(parts[1..], sep);
    }
  }

  lemma {:induction false} SplitNoSeparator(s: string, sep: char)
    requires sep !in s
    ensures Split(s, sep) == [s]
  {
    if s != [] {
      SplitNoSeparator(s[1..], sep);
      assert s[0] != sep;
      assert [s[0]] + s[1..] == s;
    }
  }

  lemma {:induction false} SplitKeyValue(key: string, value: string, sep: char)
    requires sep !in key && sep !in value
    ensures Split(key + [sep] + value, sep) == [key, value]
  {
    var s := key + [sep] + value;
    if key == [] {
      assert s == [sep] + value;
      assert s[1..] == value;
      SplitNoSeparator(value, sep);
    } else {
      assert s[1..] == key[1..] + [sep] + value;
      SplitKeyValue(key[1..], value, sep);
      assert [key[0]] + key[1..] == key;
    }
  }

  function ToUpperAscii(c: char): char {
    if 'a' <= c <= 'z' then (c as int - 32) as char else c
  }

  predicate EqualsIgnoreCase(a: string, b: string) {
    |a| == |b| && forall i :: 0 <= i < |a| ==> ToUpperAscii(a[i]) == ToUpperAscii(b[i])
  }

  /**
   * `bool.Parse`: "True" or "False" in any letter case, once surrounding white
   * space and NULs are removed; anything else throws FormatException.
   */
  function ParseBool(v: string): Option<bool> {
    var t := Trim(v, true);
    if EqualsIgnoreCase(t, "True") then Some(true)
    else if EqualsIgnoreCase(t, "False") then Some(false)
    else None
  }

  /** `bool.ToString()`. */
  function BoolToString(b: bool): string {
    if b then "True" else "False"
  }

  lemma ParseBoolToString(b: bool)
    ensures ParseBool(BoolToString(b)) == Some(b)
  {
    var s := BoolToString(b);
    TrimKeeps(s, true);
  }

  // ---------------------------------------------------------------------------
  // Lines
  // ---------------------------------------------------------------------------

  /** The trimmed key and value of a line that splits on '=' into exactly two parts. */
  datatype Entry = Entry(key: string, value: string)

  function KeyValue(line: string): (r: Option<Entry>)
    ensures r.Some? ==> '=' !in r.value.key && '=' !in r.value.value
    ensures r.Some? ==> Untrimmable(r.value.key) && Untrimmable(r.value.value)
  {
    var parts := Split(line, '=');
    if |parts| == 2 then
      TrimStripsEnds(parts[0], false);
      TrimStripsEnds(parts[1], false);
      Some(Entry(Trim(parts[0], false), Trim(parts[1], false)))
    else None
  }

  /** A line yields an entry exactly when it holds a single '='; the key is what precedes it, trimmed. */
  lemma KeyValueOfLine(line: string)
    ensures KeyValue(line).Some? <==> multiset(line)['='] == 1
    ensures KeyValue(line).Some? ==> exists before, after ::
      && line == before + "=" + after
      && KeyValue(line).value == Entry(Trim(before, false), Trim(after, false))
  {
    SplitInTwo(line, '=');
    var parts := Split(line, '=');
    if |parts| == 2 {
      assert line == parts[0] + "=" + parts[1];
    }
  }

  /** The entries of a file, line by line. */
  function Parsed(lines: seq<string>): (es: seq<Option<Entry>>)
    ensures |es| == |lines|
    ensures forall i :: 0 <= i < |lines| ==> es[i] == KeyValue(lines[i])
  {
    seq(|lines|, i requires 0 <= i < |lines| => KeyValue(lines[i]))
  }

  /** One iteration of the `LoadConfig` loop; `None` when bool.Parse throws. */
  function ApplyEntry(c: Config, e: Option<Entry>): (r: Option<Config>)
    ensures r.None? <==> e.Some? && e.value.key == "AutoStart" && ParseBool(e.value.value).None?
    ensures r.Some? && !(e.Some? && e.value.key == "Port") ==> r.value.port == c.port
    ensures r.Some? && !(e.Some? && e.value.key == "DragTime") ==> r.value.dragTime == c.dragTime
    ensures r.Some? && !(e.Some? && e.value.key == "WindowName") ==> r.value.windowName == c.windowName
    ensures r.Some? && !(e.Some? && e.value.key == "AutoStart") ==> r.value.autoStart == c.autoStart
    ensures e.Some? && e.value.key == "Port" ==> r == Some(c.(port := e.value.value))
    ensures e.Some? && e.value.key == "DragTime" ==> r == Some(c.(dragTime := e.value.value))
    ensures e.Some? && e.value.key == "WindowName" ==> r == Some(c.(windowName := e.value.value))
    ensures e.Some? && e.value.key == "AutoStart" && ParseBool(e.value.value).Some? ==>
              r == Some(c.(autoStart := ParseBool(e.value.value).value))
  {
    match e
    case None => Some(c)
    case Some(Entry(key, value)) =>
      if key == "Port" then Some(c.(port := value))
      else if key == "DragTime" then Some(c.(dragTime := value))
      else if key == "WindowName" then Some(c.(windowName := value))
      else if key == "AutoStart" then
        match ParseBool(value)
        case None => None
        case Some(b) => Some(c.(autoStart := b))
      else Some(c)
  }

  /**
   * The controls after the `LoadConfig` loop has gone over the entries
   * starting from `c`, or the index of the line whose AutoStart value
   * bool.Parse rejected.
   */
  function LoadEntries(c: Config, es: seq<Option<Entry>>): (r: Result<Config, nat>)
    ensures r.Err? ==> r.error < |es| && es[r.error].Some? && es[r.error].value.key == "AutoStart"
    decreases |es|
  {
    if es == [] then Ok(c)
    else
      match LoadEntries(c, es[..|es| - 1])
      case Err(k) => Err(k)
      case Ok(before) =>
        match ApplyEntry(before, es[|es| - 1])
        case None => Err(|es| - 1)
        case Some(after) => Ok(after)
  }

  /** The trimmed value of the last entry with `key`, if there is one. */
  function LastValue(es: seq<Option<Entry>>, key: string): Option<string> {
    if es == [] then None
    else
      match LastValue(es[1..], key)
      case Some(v) => Some(v)
      case None =>
        if es[0].Some? && es[0].value.key == key then Some(es[0].value.value) else None
  }

  lemma {:induction false} LastValueSnoc(es: seq<Option<Entry>>, e: Option<Entry>, key: string)
    ensures LastValue(es + [e], key) ==
      if e.Some? && e.value.key == key then Some(e.value.value) else LastValue(es, key)
  {
    if es != [] {
      assert (es + [e])[1..] == es[1..] + [e];
      LastValueSnoc(es[1..], e, key);
    } else {
      assert ([] + [e])[1..] == [];
    }
  }

  /** The value a key ends up with: the last line assigning it wins, and without one the start value stays. */
  function Final(start: string, es: seq<Option<Entry>>, key: string): string {
    LastValue(es, key).GetOr(start)
  }

  /**
   * Later lines win: after a successful load every text field holds the value
   * of the last line with its key, or its start value when no line has it, and
   * the check box holds the parse of the last AutoStart value.  Lines with
   * other keys, or without exactly one '=', change nothing.
   */
  lemma LoadEntriesLastWins(c: Config, es: seq<Option<Entry>>)
    requires LoadEntries(c, es).Ok?
    ensures var r := LoadEntries(c, es).value;
      && r.port == Final(c.port, es, "Port")
      && r.dragTime == Final(c.dragTime, es, "DragTime")
      && r.windowName == Final(c.windowName, es, "WindowName")
      && r.autoStart == match LastValue(es, "AutoStart")
                        case None => c.autoStart
                        case Some(v) => ParseBool(v) == Some(true)
  {
    LastTextsWin(c, es);
    LastAutoStartWins(c, es);
  }

  /** The text-box half of `LoadEntriesLastWins`, by induction on the lines. */
  lemma {:induction false} LastTextsWin(c: Config, es: seq<Option<Entry>>)
    requires LoadEntries(c, es).Ok?
    ensures var r := LoadEntries(c, es).value;
      && r.port == Final(c.port, es, "Port")
      && r.dragTime == Final(c.dragTime, es, "DragTime")
      && r.windowName == Final(c.windowName, es, "WindowName")
  {
    if es != [] {
      var init := es[..|es| - 1];
      var e := es[|es| - 1];
      assert es == init + [e];
      LastTextsWin(c, init);
      LastValueSnoc(init, e, "Port");
      LastValueSnoc(init, e, "DragTime");
      LastValueSnoc(init, e, "WindowName");
    }
  }

  /** The check-box half of `LoadEntriesLastWins`. */
  lemma {:induction false} LastAutoStartWins(c: Config, es: seq<Option<Entry>>)
    requires LoadEntries(c, es).Ok?
    ensures LoadEntries(c, es).value.autoStart == match LastValue(es, "AutoStart")
                                                 case None => c.autoStart
                                                 case Some(v) => ParseBool(v) == Some(true)
  {
    if es != [] {
      var init := es[..|es| - 1];
      var e := es[|es| - 1];
      assert es == init + [e];
      LastAutoStartWins(c, init);
      LastValueSnoc(init, e, "AutoStart");
    }
  }

  /** Once a line has failed, the rest of the file is not read. */
  lemma {:induction false} LoadEntriesStopsAtError(c: Config, es: seq<Option<Entry>>, n: nat)
    requires n <= |es|
    requires LoadEntries(c, es[..n]).Err?
    ensures LoadEntries(c, es) == LoadEntries(c, es[..n])
    decreases |es| - n
  {
    if n < |es| {
      var longer := es[..n + 1];
      assert longer[..|longer| - 1] == es[..n];
      assert LoadEntries(c, longer) == LoadEntries(c, es[..n]);
      LoadEntriesStopsAtError(c, es, n + 1);
    } else {
      assert es[..n] == es;
    }
  }

  /** One more entry: the loop's step. */
  lemma LoadEntriesSnoc(c: Config, es: seq<Option<Entry>>, e: Option<Entry>)
    ensures LoadEntries(c, es + [e]) ==
      match LoadEntries(c, es)
      case Err(k) => Err(k)
      case Ok(before) =>
        match ApplyEntry(before, e)
        case None => Err(|es|)
        case Some(after) => Ok(after)
  {
    assert (es + [e])[..|es|] == es;
  }

  /** The loop's step as the loop sees it: an entry that applies extends the load, one that fails ends it. */
  lemma LoadEntriesStep(c: Config, es: seq<Option<Entry>>, i: nat, current: Config)
    requires i < |es| && LoadEntries(c, es[..i]) == Ok(current)
    ensures ApplyEntry(current, es[i]).Some? ==>
      LoadEntries(c, es[..i + 1]) == Ok(ApplyEntry(current, es[i]).value)
    ensures ApplyEntry(current, es[i]).None? ==> LoadEntries(c, es) == Err(i)
  {
    LoadEntriesSnoc(c, es[..i], es[i]);
    assert es[..i] + [es[i]] == es[..i + 1];
    if ApplyEntry(current, es[i]).None? {
      LoadEntriesStopsAtError(c, es, i + 1);
    }
  }

  /** A failure names an entry, every entry before it loads, and that entry is the failing one. */
  lemma {:induction false} LoadEntriesError(c: Config, es: seq<Option<Entry>>)
    requires LoadEntries(c, es).Err?
    ensures var k := LoadEntries(c, es).error;
      && k < |es|
      && LoadEntries(c, es[..k]).Ok?
      && ApplyEntry(LoadEntries(c, es[..k]).value, es[k]).None?
  {
    var init := es[..|es| - 1];
    if LoadEntries(c, init).Err? {
      LoadEntriesError(c, init);
      var k := LoadEntries(c, init).error;
      assert init[..k] == es[..k];
    }
  }

  // ---------------------------------------------------------------------------
  // Saving
  // ---------------------------------------------------------------------------

  /** The line `key=value`. */
  function Line(key: string, value: string): string {
    key + "=" + value
  }

  /** The key and value of each line `SaveConfig` writes, in this order. */
  function SavedEntries(c: Config): seq<Entry> {
    [ Entry("Port", c.port),
      Entry("DragTime", c.dragTime),
      Entry("WindowName", c.windowName),
      Entry("AutoStart", BoolToString(c.autoStart)) ]
  }

  /** The four lines `SaveConfig` writes: each saved entry as `key=value`. */
  function SaveConfig(c: Config): (lines: seq<string>)
    ensures |lines| == 4
  {
    var es := SavedEntries(c);
    seq(4, i requires 0 <= i < 4 => Line(es[i].key, es[i].value))
  }

  /** No white space at either end: what `string.Trim()` leaves unchanged. */
  predicate Untrimmable(v: string) {
    v == [] || (!IsWhiteSpace(v[0]) && !IsWhiteSpace(v[|v| - 1]))
  }

  /** A value that survives a save and a load: no '=' and nothing to trim. */
  predicate Storable(v: string) {
    '=' !in v && Untrimmable(v)
  }

  lemma KeyValueOfSaved(key: string, value: string)
    requires Storable(key) && Storable(value)
    ensures KeyValue(Line(key, value)) == Some(Entry(key, value))
  {
    TrimKeeps(key, false);
    TrimKeeps(value, false);
    SplitKeyValue(key, value, '=');
  }

  /** A value holding '=' does not survive: its line splits into three or more parts and loading skips it. */
  lemma SeparatorInValueIsLost(key: string, value: string)
    requires '=' in value
    ensures KeyValue(Line(key, value)).None?
  {
    var line := Line(key, value);
    assert line == key + ['='] + value;
    assert multiset(line)['='] == multiset(key)['='] + 1 + multiset(value)['='];
    KeyValueOfLine(line);
  }

  lemma KeysStorable()
    ensures Storable("Port") && Storable("DragTime") && Storable("WindowName") && Storable("AutoStart")
    ensures Storable(BoolToString(true)) && Storable(BoolToString(false))
  {
  }

  lemma SavedEntriesStorable(c: Config)
    requires Storable(c.port) && Storable(c.dragTime) && Storable(c.windowName)
    ensures forall i :: 0 <= i < 4 ==>
      Storable(SavedEntries(c)[i].key) && Storable(SavedEntries(c)[i].value)
  {
    KeysStorable();
  }

  /** Every entry present. */
  function Present(es: seq<Entry>): (r: seq<Option<Entry>>)
    ensures |r| == |es|
    ensures forall i :: 0 <= i < |es| ==> r[i] == Some(es[i])
  {
    seq(|es|, i requires 0 <= i < |es| => Some(es[i]))
  }

  /** Lines written from storable keys and values read back as exactly those entries. */
  lemma ParsedLines(lines: seq<string>, es: seq<Entry>)
    requires |lines| == |es|
    requires forall i :: 0 <= i < |es| ==>
      Storable(es[i].key) && Storable(es[i].value) && lines[i] == Line(es[i].key, es[i].value)
    ensures Parsed(lines) == Present(es)
  {
    forall i | 0 <= i < |es|
      ensures Parsed(lines)[i] == Present(es)[i]
    {
      KeyValueOfSaved(es[i].key, es[i].value);
    }
  }

  /** What `SaveConfig` writes reads back as its four entries. */
  lemma ParsedSaved(c: Config)
    requires Storable(c.port) && Storable(c.dragTime) && Storable(c.windowName)
    ensures Parsed(SaveConfig(c)) == Present(SavedEntries(c))
  {
    SavedEntriesStorable(c);
    ParsedLines(SaveConfig(c), SavedEntries(c));
  }

  /** The saved entries, loaded in order from any controls, give back the saved controls. */
  lemma LoadSavedEntries(start: Config, c: Config)
    ensures LoadEntries(start, Present(SavedEntries(c))) == Ok(c)
  {
    var es := Present(SavedEntries(c));
    LoadSavedTexts(start, c);
    ParseBoolToString(c.autoStart);
    LoadEntriesStep(start, es, 3, c.(autoStart := start.autoStart));
    assert es[..4] == es;
  }

  /** The first three saved lines restore the three text boxes. */
  lemma LoadSavedTexts(start: Config, c: Config)
    ensures LoadEntries(start, Present(SavedEntries(c))[..3]) == Ok(c.(autoStart := start.autoStart))
  {
    var es := Present(SavedEntries(c));
    var c1 := start.(port := c.port);
    var c2 := c1.(dragTime := c.dragTime);
    assert es[..0] == [];
    assert es[0] == Some(Entry("Port", c.port));
    LoadEntriesStep(start, es, 0, start);
    assert LoadEntries(start, es[..1]) == Ok(c1);
    assert es[1] == Some(Entry("DragTime", c.dragTime));
    LoadEntriesStep(start, es, 1, c1);
    assert LoadEntries(start, es[..2]) == Ok(c2);
    assert es[2] == Some(Entry("WindowName", c.windowName));
    LoadEntriesStep(start, es, 2, c2);
  }

  /** Loading what `SaveConfig` wrote, from any controls, restores the saved ones. */
  lemma LoadAfterSave(start: Config, c: Config)
    requires Storable(c.port) && Storable(c.dragTime) && Storable(c.windowName)
    ensures LoadEntries(start, Parsed(SaveConfig(c))) == Ok(c)
  {
    ParsedSaved(c);
    LoadSavedEntries(start, c);
  }

  // ---------------------------------------------------------------------------
  // The form's controls
  // ---------------------------------------------------------------------------

  /** The configuration state of `MainForm`: its three text boxes and its check box. */
  class MainForm {
    var port: string         // txtPort.Text
    var dragTime: string     // txtDragTime.Text
    var windowName: string   // txtWindowName.Text
    var autoStart: bool      // chkAutoStart.Checked

    function Fields(): Config
      reads this
    {
      Config(port, dragTime, windowName, autoStart)
    }

    /** The controls as `InitializeControls` creates them: empty text, unchecked. */
    constructor ()
      ensures Fields() == Blank
    {
      port, dragTime, windowName, autoStart := "", "", "", false;
    }

    /**
     * One pass of the `LoadConfig` loop: a line that splits on '=' into two
     * parts overwrites the control its trimmed key names with its trimmed
     * value.  `ok` is false when bool.Parse throws; nothing is changed then.
     */
    method LoadLine(line: string) returns (ok: bool)
      modifies this
      ensures ok <==> ApplyEntry(old(Fields()), KeyValue(line)).Some?
      ensures ok ==> Some(Fields()) == ApplyEntry(old(Fields()), KeyValue(line))
      ensures !ok ==> Fields() == old(Fields())
    {
      var parts := Split(line, '=');
      if |parts| == 2 {
        var key := Trim(parts[0], false);
        var value := Trim(parts[1], false);
        if key == "Port" {
          port := value;
        } else if key == "DragTime" {
          dragTime := value;
        } else if key == "WindowName" {
          windowName := value;
        } else if key == "AutoStart" {
          var b := ParseBool(value);
          if b.None? {
            // bool.Parse throws FormatException
            return false;
          }
          autoStart := b.value;
        }
      }
      return true;
    }

    /**
     * `LoadConfig`: with no file, the defaults; otherwise each line, in
     * order, as `LoadLine` applies it.  When bool.Parse throws, the exception
     * leaves the loop at that line (`failedLine`), with the earlier lines
     * already applied.
     */
    method LoadConfig(file: Option<seq<string>>) returns (failedLine: Option<nat>)
      modifies this
      ensures file.None? ==> Fields() == Defaults && failedLine.None?
      ensures file.Some? ==>
        match LoadEntries(old(Fields()), Parsed(file.value))
        case Ok(c) => Fields() == c && failedLine.None?
        case Err(k) => failedLine == Some(k) && k < |file.value|
                       && LoadEntries(old(Fields()), Parsed(file.value[..k])) == Ok(Fields())
    {
      if file.None? {
        port, dragTime, windowName, autoStart := "9001", "5000", "VRChat", false;
        return None;
      }
      var lines := file.value;
      ghost var start := Fields();
      ghost var es := Parsed(lines);
      var i := 0;
      while i < |lines|
        invariant 0 <= i <= |lines|
        invariant LoadEntries(start, es[..i]) == Ok(Fields())
      {
        ghost var current := Fields();
        LoadEntriesStep(start, es, i, current);
        var ok := LoadLine(lines[i]);
        if !ok {
          // the exception escapes LoadConfig
          assert Parsed(lines[..i]) == es[..i];
          return Some(i);
        }
        i := i + 1;
      }
      assert es[..i] == es;
      failedLine := None;
    }
  }
}
