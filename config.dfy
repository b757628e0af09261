/**
 * Model of the configuration logic of config.go: the `[key][val]` line scanner
 * `parseTokens`, the remap-file loader `loadRemapMap`, and the consistency checks and
 * rewrites `initFlags` applies once the command line has been parsed.
 *
 * Opening the remap file is a parameter (`fileOpens`) and its contents are the lines
 * `bufio.Scanner` yields. The flag parser itself, the usage and build-information output,
 * and logging are not modelled: `InitFlags` starts from the parsed flag record.
 */
module Config {
  import opened Wrappers
  import Misc
  import Text

  // ---------------------------------------------------------------- parseTokens

  /**
   * What `parseTokens` does with one line: a key/value pair (both empty for a blank or
   * comment line), the bad-format error with its message, or a run-time panic from
   * indexing one rune past the end of the line.
   */
  datatype ParseOutcome = Parsed(key: string, val: string) | BadFormat(message: string) | IndexPanic

  function BadFormatMessage(line: string): string
  {
    "token remap line has bad format: { " + line + " }"
  }

  predicate NoClose(s: string)
  {
    forall i :: 0 <= i < |s| ==> s[i] != ']'
  }

  /** The first index at or after `from` holding `]`, or the length of the line if there is none. */
  function CloseBracket(line: string, from: nat): (ix: nat)
    requires from <= |line|
    ensures from <= ix <= |line|
    ensures forall i :: from <= i < ix ==> line[i] != ']'
    ensures ix < |line| ==> line[ix] == ']'
    decreases |line| - from
  {
    if from == |line| || line[from] == ']' then from else CloseBracket(line, from + 1)
  }

  lemma CloseBracketAt(line: string, from: nat, ix: nat)
    requires from <= ix <= |line|
    requires forall i :: from <= i < ix ==> line[i] != ']'
    requires ix < |line| ==> line[ix] == ']'
    ensures CloseBracket(line, from) == ix
  {
  }

  /** The outcome of `parseTokens` on `line`, read as the index scan it performs. */
  function ParseLine(line: string): ParseOutcome
  {
    if |line| == 0 then Parsed("", "")
    else if line[0] == '#' then Parsed("", "")
    else if line[0] != '[' then BadFormat(BadFormatMessage(line))
    else
      var ix := CloseBracket(line, 1);
      if ix + 2 >= |line| || line[ix] != ']' || line[ix + 1] != '[' then BadFormat(BadFormatMessage(line))
      else
        var jx := CloseBracket(line, ix + 2);
        if jx == |line| then IndexPanic
        else if jx != |line| - 1 then BadFormat(BadFormatMessage(line))
        else Parsed(line[1..ix], line[ix + 2..jx])
  }

  /** `parseTokens`: the index `ix` walks the runes, filling the key and then the value. */
  method ParseTokens(line: string) returns (outcome: ParseOutcome)
    ensures outcome == ParseLine(line)
  {
    var err := BadFormatMessage(line);
    if |line| == 0 {
      return Parsed("", "");
    }
    if line[0] == '#' {
      return Parsed("", "");
    } else if line[0] != '[' {
      return BadFormat(err);
    }
    var key := "";
    var ix := 1;
    while ix < |line| && line[ix] != ']'
      invariant 1 <= ix <= |line|
      invariant key == line[1..ix]
      invariant forall i :: 1 <= i < ix ==> line[i] != ']'
    {
      assert line[1..ix + 1] == line[1..ix] + [line[ix]];
      key := key + [line[ix]];
      ix := ix + 1;
    }
    CloseBracketAt(line, 1, ix);
    if ix + 2 >= |line| || line[ix] != ']' || line[ix + 1] != '[' {
      return BadFormat(err);
    }
    var val := "";
    ix := ix + 2;
    ghost var start := ix;
    while ix < |line| && line[ix] != ']'
      invariant start <= ix <= |line|
      invariant val == line[start..ix]
      invariant forall i :: start <= i < ix ==> line[i] != ']'
    {
      assert line[start..ix + 1] == line[start..ix] + [line[ix]];
      val := val + [line[ix]];
      ix := ix + 1;
    }
    CloseBracketAt(line, start, ix);
    if ix == |line| {
      // `runes[ix]` with `ix == len(runes)`: the index is out of range.
      return IndexPanic;
    }
    if line[ix] != ']' || |line| - 1 != ix {
      return BadFormat(err);
    }
    return Parsed(key, val);
  }

  /** A blank line and a comment line give two empty tokens and no error; any other first rune but `[` is an error. */
  lemma ParseLineLeadingRune(line: string)
    ensures |line| == 0 || line[0] == '#' ==> ParseLine(line) == Parsed("", "")
    ensures |line| > 0 && line[0] != '#' && line[0] != '[' ==> ParseLine(line) == BadFormat(BadFormatMessage(line))
  {
  }

  /**
   * A pair is only ever read off a line that is exactly `[` key `][` val `]`, neither token
   * holding `]`, the closing bracket being the last rune.
   */
  lemma ParsedShape(line: string, key: string, val: string)
    requires |line| > 0 && line[0] == '['
    requires ParseLine(line) == Parsed(key, val)
    ensures line == "[" + key + "][" + val + "]"
    ensures NoClose(key) && NoClose(val)
  {
    var ix := CloseBracket(line, 1);
    assert ix + 2 < |line| && line[ix] == ']' && line[ix + 1] == '[';
    var jx := CloseBracket(line, ix + 2);
    assert jx == |line| - 1 && key == line[1..ix] && val == line[ix + 2..jx];
    assert line == [line[0]] + key + [line[ix], line[ix + 1]] + val + [line[jx]];
    forall i | 0 <= i < |key| ensures key[i] != ']' {
      assert key[i] == line[1 + i];
    }
    forall i | 0 <= i < |val| ensures val[i] != ']' {
      assert val[i] == line[ix + 2 + i];
    }
  }

  /** Every pair of tokens free of `]` reads back from its bracketed rendering. */
  lemma ParseRoundTrip(key: string, val: string)
    requires NoClose(key) && NoClose(val)
    ensures ParseLine("[" + key + "][" + val + "]") == Parsed(key, val)
  {
    var line := "[" + key + "][" + val + "]";
    var ix := |key| + 1;
    CloseBracketAt(line, 1, ix);
    assert line[ix..ix + 2] == "][";
    CloseBracketAt(line, ix + 2, |line| - 1);
    assert line[1..ix] == key;
    assert line[ix + 2..|line| - 1] == val;
  }

  /** Runes after the value's closing bracket make the line an error. */
  lemma TrailingRunesRejected(key: string, val: string, rest: string)
    requires NoClose(key) && NoClose(val) && |rest| > 0
    ensures ParseLine("[" + key + "][" + val + "]" + rest) == BadFormat(BadFormatMessage("[" + key + "][" + val + "]" + rest))
  {
    var line := "[" + key + "][" + val + "]" + rest;
    var ix := |key| + 1;
    CloseBracketAt(line, 1, ix);
    assert line[ix..ix + 2] == "][";
    CloseBracketAt(line, ix + 2, |key| + |val| + 3);
  }

  /** A key with no closing bracket, or a closing bracket not followed by `[` and at least one more rune, is an error. */
  lemma MissingSeparatorRejected(key: string, rest: string)
    requires NoClose(key)
    requires |rest| < 2 || rest[0] != '['
    ensures ParseLine("[" + key) == BadFormat(BadFormatMessage("[" + key))
    ensures ParseLine("[" + key + "]" + rest) == BadFormat(BadFormatMessage("[" + key + "]" + rest))
  {
    CloseBracketAt("[" + key, 1, |key| + 1);
    var line := "[" + key + "]" + rest;
    CloseBracketAt(line, 1, |key| + 1);
    assert |rest| >= 1 ==> line[|key| + 2] == rest[0];
  }

  /**
   * A value that is opened but never closed (`[k][v`) runs the index to the end of the line,
   * and the check that follows reads the rune at that index: the scan panics instead of
   * reporting the bad format. An empty unclosed value (`[k][`) is still reported as an error.
   */
  lemma UnterminatedValuePanics(key: string, val: string)
    requires NoClose(key) && NoClose(val)
    ensures |val| > 0 ==> ParseLine("[" + key + "][" + val) == IndexPanic
    ensures ParseLine("[" + key + "][") == BadFormat(BadFormatMessage("[" + key + "]["))
  {
    var line := "[" + key + "][" + val;
    var ix := |key| + 1;
    CloseBracketAt(line, 1, ix);
    assert line[ix..ix + 2] == "][";
    if |val| > 0 {
      CloseBracketAt(line, ix + 2, |line|);
    }
    CloseBracketAt("[" + key + "][", 1, ix);
  }

  /** A panic happens only on such a line: `[`, a key, `][`, then a non-empty value without `]`. */
  lemma PanicShape(line: string)
    requires ParseLine(line) == IndexPanic
    ensures exists n :: (1 <= n && n + 2 < |line| && line == "[" + line[1..n] + "][" + line[n + 2..]
      && NoClose(line[1..n]) && NoClose(line[n + 2..]))
  {
    var ix := CloseBracket(line, 1);
    assert line == "[" + line[1..ix] + "][" + line[ix + 2..];
    var value := line[ix + 2..];
    assert NoClose(value) by {
      forall i | 0 <= i < |value| ensures value[i] != ']' {
        assert value[i] == line[ix + 2 + i];
      }
    }
  }

  // ---------------------------------------------------------------- loadRemapMap

  datatype Pair = Pair(key: string, val: string)

  /** What the loop makes of one scanned line: it is trimmed and then scanned. */
  function LineOutcome(line: string): ParseOutcome
  {
    ParseLine(Text.TrimSpace(line))
  }

  /** The pair an outcome contributes: parsed without error, both tokens non-empty. */
  function Entry(o: ParseOutcome): Option<Pair>
  {
    match o
    case Parsed(k, v) => if Misc.IsStringSet(Some(k)) && Misc.IsStringSet(Some(v)) then Some(Pair(k, v)) else None
    case _ => None
  }

  function LineEntry(line: string): Option<Pair>
  {
    Entry(LineOutcome(line))
  }

  predicate LinePanics(line: string)
  {
    LineOutcome(line) == IndexPanic
  }

  /** The outcome of every scanned line, in order. */
  function Outcomes(lines: seq<string>): (os: seq<ParseOutcome>)
    ensures |os| == |lines| && forall i :: 0 <= i < |lines| ==> os[i] == LineOutcome(lines[i])
  {
    seq(|lines|, i requires 0 <= i < |lines| => LineOutcome(lines[i]))
  }

  /** The outcome of `loadRemapMap`: the table, the fatal stop when the file cannot be opened, or a panic. */
  datatype RemapLoad = Remapped(table: map<string, string>) | OpenFatal | Panicked

  /** The table a run of line outcomes builds, in order; a later pair for a key replaces the earlier one. */
  function Accumulate(os: seq<ParseOutcome>): RemapLoad
  {
    if os == [] then Remapped(map[])
    else
      match Accumulate(os[..|os| - 1])
      case Remapped(m) =>
        var last := os[|os| - 1];
        if last == IndexPanic then Panicked
        else if Entry(last).Some? then Remapped(m[Entry(last).value.key := Entry(last).value.val])
        else Remapped(m)
      case other => other
  }

  function RemapLines(lines: seq<string>): RemapLoad
  {
    Accumulate(Outcomes(lines))
  }

  function RemapTable(fileOpens: bool, lines: seq<string>): RemapLoad
  {
    if fileOpens then RemapLines(lines) else OpenFatal
  }

  /** `loadRemapMap`: the scan loop, skipping blank and unparsable lines, writing the map in place. */
  method LoadRemapMap(fileOpens: bool, lines: seq<string>) returns (result: RemapLoad)
    ensures result == RemapTable(fileOpens, lines)
  {
    if !fileOpens {
      return OpenFatal;
    }
    var remap: map<string, string> := map[];
    for i := 0 to |lines|
      invariant RemapLines(lines[..i]) == Remapped(remap)
    {
      OutcomesSnoc(lines, i);
      var line := Text.TrimSpace(lines[i]);
      if line == "" {
        AccumulateSnoc(Outcomes(lines[..i]), remap, Parsed("", ""));
        continue;
      }
      var parsed := ParseTokens(line);
      AccumulateSnoc(Outcomes(lines[..i]), remap, parsed);
      match parsed {
        case IndexPanic =>
          PanickedIsFinal(Outcomes(lines[..i + 1]), Outcomes(lines), lines[..i + 1], lines);
          return Panicked;
        case BadFormat(_) =>
          continue;
        case Parsed(key, val) =>
          if Misc.IsStringSet(Some(key)) && Misc.IsStringSet(Some(val)) {
            remap := remap[key := val];
          }
      }
    }
    assert lines[..|lines|] == lines;
    return Remapped(remap);
  }

  /** One more line outcome `o`: a panic ends the table, a pair is written into it. */
  lemma AccumulateSnoc(os: seq<ParseOutcome>, m: map<string, string>, o: ParseOutcome)
    requires Accumulate(os) == Remapped(m)
    ensures Accumulate(os + [o]) ==
      if o == IndexPanic then Panicked
      else if Entry(o).Some? then Remapped(m[Entry(o).value.key := Entry(o).value.val])
      else Remapped(m)
  {
    assert (os + [o])[..|os|] == os;
  }

  lemma OutcomesSnoc(lines: seq<string>, i: nat)
    requires i < |lines|
    ensures Outcomes(lines[..i + 1]) == Outcomes(lines[..i]) + [LineOutcome(lines[i])]
  {
  }

  /** Once some line has panicked, the later lines are never read. */
  lemma PanickedIsFinal(before: seq<ParseOutcome>, all: seq<ParseOutcome>, prefix: seq<string>, lines: seq<string>)
    requires |prefix| <= |lines| && prefix == lines[..|prefix|]
    requires before == Outcomes(prefix) && all == Outcomes(lines)
    requires Accumulate(before) == Panicked
    ensures Accumulate(all) == Panicked
  {
    assert before == all[..|prefix|];
    AccumulatePanickedIsFinal(all, |prefix|);
  }

  lemma {:induction false} AccumulatePanickedIsFinal(os: seq<ParseOutcome>, n: nat)
    requires n <= |os|
    requires Accumulate(os[..n]) == Panicked
    ensures Accumulate(os) == Panicked
    decreases |os| - n
  {
    if n < |os| {
      assert os[..n + 1][..n] == os[..n];
      AccumulatePanickedIsFinal(os, n + 1);
    } else {
      assert os[..n] == os;
    }
  }

  lemma {:induction false} AccumulatePanicsIff(os: seq<ParseOutcome>)
    ensures Accumulate(os) != OpenFatal
    ensures Accumulate(os) == Panicked <==> exists i :: 0 <= i < |os| && os[i] == IndexPanic
    decreases |os|
  {
    if os != [] {
      var init := os[..|os| - 1];
      AccumulatePanicsIff(init);
      if Accumulate(init) == Panicked {
        var i :| 0 <= i < |init| && init[i] == IndexPanic;
        assert os[i] == init[i];
      }
      forall i | 0 <= i < |os| - 1 && os[i] == IndexPanic ensures Accumulate(init) == Panicked {
        assert init[i] == os[i];
      }
    }
  }

  /** The loader panics exactly when one of the lines does; the lines alone never make it fatal. */
  lemma RemapPanicsIff(lines: seq<string>)
    ensures RemapLines(lines) != OpenFatal
    ensures RemapLines(lines) == Panicked <==> exists i :: 0 <= i < |lines| && LinePanics(lines[i])
  {
    var os := Outcomes(lines);
    AccumulatePanicsIff(os);
    if exists i :: 0 <= i < |os| && os[i] == IndexPanic {
      var i :| 0 <= i < |os| && os[i] == IndexPanic;
      assert LinePanics(lines[i]);
    }
  }

  /** A loaded table is the table of all outcomes but the last, updated by the last one's pair if it has one. */
  lemma AccumulateStep(os: seq<ParseOutcome>, m: map<string, string>)
    requires os != [] && Accumulate(os) == Remapped(m)
    ensures Accumulate(os[..|os| - 1]).Remapped? && os[|os| - 1] != IndexPanic
    ensures var m' := Accumulate(os[..|os| - 1]).table; var e := Entry(os[|os| - 1]);
      m == if e.Some? then m'[e.value.key := e.value.val] else m'
  {
  }

  lemma {:induction false} AccumulateEntries(os: seq<ParseOutcome>, m: map<string, string>)
    requires Accumulate(os) == Remapped(m)
    ensures forall k :: k in m ==> k != "" && m[k] != ""
    ensures forall k :: k in m ==> exists i :: 0 <= i < |os| && Entry(os[i]) == Some(Pair(k, m[k]))
    decreases |os|
  {
    if os != [] {
      var init := os[..|os| - 1];
      var e := Entry(os[|os| - 1]);
      AccumulateStep(os, m);
      var m' := Accumulate(init).table;
      AccumulateEntries(init, m');
      forall k | k in m ensures exists i :: 0 <= i < |os| && Entry(os[i]) == Some(Pair(k, m[k])) {
        if e.Some? && e.value.key == k {
          assert Entry(os[|os| - 1]) == Some(Pair(k, m[k]));
        } else {
          assert k in m' && m[k] == m'[k];
          var i :| 0 <= i < |init| && Entry(init[i]) == Some(Pair(k, m'[k]));
          assert os[i] == init[i];
        }
      }
    }
  }

  /** Neither a key nor a value of a loaded table is empty. */
  lemma RemapEntriesNonEmpty(lines: seq<string>, m: map<string, string>)
    requires RemapLines(lines) == Remapped(m)
    ensures forall k :: k in m ==> k != "" && m[k] != ""
  {
    AccumulateEntries(Outcomes(lines), m);
  }

  /** Every entry of a loaded table comes from some line holding that very pair. */
  lemma RemapEntriesFromLines(lines: seq<string>, m: map<string, string>)
    requires RemapLines(lines) == Remapped(m)
    ensures forall k :: k in m ==> exists i :: 0 <= i < |lines| && LineEntry(lines[i]) == Some(Pair(k, m[k]))
  {
    var os := Outcomes(lines);
    AccumulateEntries(os, m);
    forall k | k in m ensures exists i :: 0 <= i < |lines| && LineEntry(lines[i]) == Some(Pair(k, m[k])) {
      var i :| 0 <= i < |os| && Entry(os[i]) == Some(Pair(k, m[k]));
      assert LineEntry(lines[i]) == Entry(os[i]);
    }
  }

  lemma {:induction false} AccumulateLastWins(os: seq<ParseOutcome>, m: map<string, string>, i: nat, p: Pair)
    requires Accumulate(os) == Remapped(m)
    requires i < |os| && Entry(os[i]) == Some(p)
    requires forall j :: i < j < |os| ==> Entry(os[j]).None? || Entry(os[j]).value.key != p.key
    ensures p.key in m && m[p.key] == p.val
    decreases |os|
  {
    var init := os[..|os| - 1];
    AccumulateStep(os, m);
    if i < |os| - 1 {
      forall j | i < j < |init| ensures Entry(init[j]).None? || Entry(init[j]).value.key != p.key {
        assert init[j] == os[j];
      }
      assert init[i] == os[i];
      AccumulateLastWins(init, Accumulate(init).table, i, p);
    }
  }

  /**
   * The last line holding a pair for `key` decides its value: a later duplicate key silently
   * overwrites an earlier one.
   */
  lemma RemapLastWins(lines: seq<string>, m: map<string, string>, i: nat, p: Pair)
    requires RemapLines(lines) == Remapped(m)
    requires i < |lines| && LineEntry(lines[i]) == Some(p)
    requires forall j :: i < j < |lines| ==> LineEntry(lines[j]).None? || LineEntry(lines[j]).value.key != p.key
    ensures p.key in m && m[p.key] == p.val
  {
    var os := Outcomes(lines);
    forall j | i < j < |os| ensures Entry(os[j]).None? || Entry(os[j]).value.key != p.key {
      assert Entry(os[j]) == LineEntry(lines[j]);
    }
    AccumulateLastWins(os, m, i, p);
  }

  /** A bracketed pair of non-empty tokens free of `]` is a line that contributes exactly that pair. */
  lemma LineEntryOfPair(key: string, val: string)
    requires NoClose(key) && NoClose(val) && key != "" && val != ""
    ensures LineEntry("[" + key + "][" + val + "]") == Some(Pair(key, val))
    ensures !LinePanics("[" + key + "][" + val + "]")
  {
    var line := "[" + key + "][" + val + "]";
    TrimmedPairParses(key, val);
    assert Misc.IsStringSet(Some(key)) && Misc.IsStringSet(Some(val));
  }

  lemma TrimmedPairParses(key: string, val: string)
    requires NoClose(key) && NoClose(val)
    ensures ParseLine(Text.TrimSpace("[" + key + "][" + val + "]")) == Parsed(key, val)
  {
    var line := "[" + key + "][" + val + "]";
    assert line[0] == '[' && line[|line| - 1] == ']';
    Text.TrimSpaceOfTrimmed(line);
    ParseRoundTrip(key, val);
  }

  /** Two lines with pairs for one key: the table keeps the second value. */
  lemma DuplicateKeyOverwrites(a: string, b: string, key: string, first: string, second: string)
    requires LineEntry(a) == Some(Pair(key, first)) && LineEntry(b) == Some(Pair(key, second))
    ensures RemapLines([a, b]) == Remapped(map[key := second])
  {
    var os := Outcomes([a, b]);
    assert os == [LineOutcome(a), LineOutcome(b)];
    AccumulateOverwrites(os[0], os[1], key, first, second);
  }

  lemma AccumulateOverwrites(x: ParseOutcome, y: ParseOutcome, key: string, first: string, second: string)
    requires Entry(x) == Some(Pair(key, first)) && Entry(y) == Some(Pair(key, second))
    ensures Accumulate([x, y]) == Remapped(map[key := second])
  {
    assert Accumulate([x]) == Remapped(map[key := first]) by {
      AccumulateSnoc([], map[], x);
      assert [] + [x] == [x];
    }
    assert Accumulate([x, y]) == Remapped(map[key := first][key := second]) by {
      AccumulateSnoc([x], map[key := first], y);
      assert [x] + [y] == [x, y];
    }
    assert map[key := first][key := second] == map[key := second];
  }

  // ---------------------------------------------------------------- initFlags

  /** The parsed command-line flags `initFlags` reads and rewrites. */
  datatype Flags = Flags(
    debug: bool, verbose: bool, help: bool, quiet: bool,
    organization: string, remapFieldNames: string, destInsecure: bool, dest: string,
    headerKeys: seq<string>, headerValues: seq<string>,
    serviceName: string, port: string, keyFile: string, certFile: string)

  /** The defaults registered for each flag. */
  const DefaultFlags: Flags := Flags(
    false, false, false, false,
    "P3IDTechnologies", "", false, "localhost",
    ["AUTHORIZATION"], ["bearer ****DuMmY*ToKeN****="],
    "", "9090", "", "")

  const MinInt64: int := -0x8000_0000_0000_0000
  const MaxInt64: int := 0x7FFF_FFFF_FFFF_FFFF

  predicate AllDigits(s: string)
  {
    forall i :: 0 <= i < |s| ==> Text.IsDigit(s[i])
  }

  /** `strconv.Atoi` on a 64-bit platform: an optional sign, at least one decimal digit, and a value that fits. */
  function Atoi(s: string): (r: Option<int>)
    ensures r.Some? ==> MinInt64 <= r.value <= MaxInt64
    ensures r.Some? ==> |s| > 0 && (r.value < 0 ==> s[0] == '-')
  {
    if |s| > 0 && (s[0] == '+' || s[0] == '-') then
      var digits := s[1..];
      if |digits| == 0 || !AllDigits(digits) then None
      else
        var v: int := if s[0] == '-' then -(Text.DigitsValue(digits) as int) else Text.DigitsValue(digits);
        if MinInt64 <= v <= MaxInt64 then Some(v) else None
    else if |s| == 0 || !AllDigits(s) then None
    else if Text.DigitsValue(s) <= MaxInt64 then Some(Text.DigitsValue(s))
    else None
  }

  /** Every decimal rendering of a 64-bit value reads back: with no sign, with `+`, and negated with `-`. */
  lemma AtoiOfDecimal(n: nat)
    ensures n <= MaxInt64 ==> Atoi(Text.Decimal(n)) == Some(n)
    ensures n <= MaxInt64 ==> Atoi("+" + Text.Decimal(n)) == Some(n)
    ensures n <= -MinInt64 ==> Atoi("-" + Text.Decimal(n)) == Some(-(n as int))
    ensures n > MaxInt64 ==> Atoi(Text.Decimal(n)).None? && Atoi("+" + Text.Decimal(n)).None?
    ensures n > -MinInt64 ==> Atoi("-" + Text.Decimal(n)).None?
  {
    Text.DigitsValueOfDecimal(n);
    assert ("+" + Text.Decimal(n))[1..] == Text.Decimal(n);
    assert ("-" + Text.Decimal(n))[1..] == Text.Decimal(n);
  }

  /** Any run of digits in range parses as the number it denotes, leading zeros included, also after a sign. */
  lemma AtoiOfDigits(s: string)
    requires s != "" && AllDigits(s)
    ensures Text.DigitsValue(s) <= MaxInt64 ==> Atoi(s) == Some(Text.DigitsValue(s))
    ensures Text.DigitsValue(s) <= MaxInt64 ==> Atoi("+" + s) == Some(Text.DigitsValue(s))
    ensures Text.DigitsValue(s) <= -MinInt64 ==> Atoi("-" + s) == Some(-(Text.DigitsValue(s) as int))
    ensures Text.DigitsValue(s) > MaxInt64 ==> Atoi(s).None? && Atoi("+" + s).None?
  {
    assert ("+" + s)[1..] == s;
    assert ("-" + s)[1..] == s;
  }

  /** Text that is empty, a bare sign, or holds a rune other than a digit after the sign does not parse. */
  lemma AtoiRejects(s: string)
    ensures |s| == 0 ==> Atoi(s).None?
    ensures (s == "+" || s == "-") ==> Atoi(s).None?
    ensures (exists i :: 1 <= i < |s| && !Text.IsDigit(s[i])) ==> Atoi(s).None?
    ensures |s| > 0 && s[0] != '+' && s[0] != '-' && !Text.IsDigit(s[0]) ==> Atoi(s).None?
  {
    if i :| 1 <= i < |s| && !Text.IsDigit(s[i]) {
      if |s| > 0 && (s[0] == '+' || s[0] == '-') {
        assert s[1..][i - 1] == s[i];
      }
    }
  }

  datatype FatalReason = HeaderCountMismatch | InsecureWithoutDebug | BadPort | RemapFileUnopenable

  /** How start-up ends: running with the final flags and remap table, stopped, or a panic in the remap loader. */
  datatype Startup = Started(flags: Flags, remap: map<string, string>) | Fatal(reason: FatalReason) | HelpExit | LoaderPanic

  /** `localhost` is shorthand for this service's own `/reflect` endpoint on the configured port. */
  function ResolvedDestination(f: Flags): Flags
  {
    if f.dest == "localhost" then f.(dest := "https://localhost:" + f.port + "/reflect") else f
  }

  /**
   * The checks and rewrites of `initFlags` after the flags are parsed, in the order they run:
   * the destination rewrite, the header count check, the insecure check, the help exit, the
   * port check, then the remap table (empty when no file is named).
   */
  function InitFlags(f: Flags, remapFileOpens: bool, remapLines: seq<string>): (s: Startup)
    ensures s == HelpExit ==> f.help
    ensures s.Started? ==> !f.help && Atoi(f.port).Some? && s.flags.dest != "localhost"
    ensures s == Fatal(RemapFileUnopenable) ==> f.remapFieldNames != "" && !remapFileOpens
    ensures s == LoaderPanic ==> f.remapFieldNames != "" && exists i :: 0 <= i < |remapLines| && LinePanics(remapLines[i])
  {
    RemapPanicsIff(remapLines);
    var g := ResolvedDestination(f);
    if |g.headerKeys| != |g.headerValues| then Fatal(HeaderCountMismatch)
    else if g.destInsecure && !g.debug then Fatal(InsecureWithoutDebug)
    else if g.help then HelpExit
    else if Atoi(g.port).None? then Fatal(BadPort)
    else if Misc.IsStringSet(Some(g.remapFieldNames)) then
      match RemapTable(remapFileOpens, remapLines)
      case Remapped(m) => Started(g, m)
      case OpenFatal => Fatal(RemapFileUnopenable)
      case Panicked => LoaderPanic
    else Started(g, map[])
  }

  /** Mismatched header counts and `--insecure` without `--debug` stop start-up, each under its own reason. */
  lemma InitFlagsFatalChecks(f: Flags, remapFileOpens: bool, remapLines: seq<string>)
    ensures InitFlags(f, remapFileOpens, remapLines) == Fatal(HeaderCountMismatch) <==> |f.headerKeys| != |f.headerValues|
    ensures InitFlags(f, remapFileOpens, remapLines) == Fatal(InsecureWithoutDebug) <==>
      |f.headerKeys| == |f.headerValues| && f.destInsecure && !f.debug
    ensures InitFlags(f, remapFileOpens, remapLines) == Fatal(BadPort) <==>
      |f.headerKeys| == |f.headerValues| && !(f.destInsecure && !f.debug) && !f.help && Atoi(f.port).None?
    ensures InitFlags(f, remapFileOpens, remapLines) == HelpExit <==>
      |f.headerKeys| == |f.headerValues| && !(f.destInsecure && !f.debug) && f.help
    ensures InitFlags(f, remapFileOpens, remapLines) == Fatal(RemapFileUnopenable) <==>
      |f.headerKeys| == |f.headerValues| && !(f.destInsecure && !f.debug) && !f.help && Atoi(f.port).Some?
      && f.remapFieldNames != "" && !remapFileOpens
    ensures InitFlags(f, remapFileOpens, remapLines) == LoaderPanic <==>
      |f.headerKeys| == |f.headerValues| && !(f.destInsecure && !f.debug) && !f.help && Atoi(f.port).Some?
      && f.remapFieldNames != "" && remapFileOpens && exists i :: 0 <= i < |remapLines| && LinePanics(remapLines[i])
    ensures InitFlags(f, remapFileOpens, remapLines).Started? <==>
      |f.headerKeys| == |f.headerValues| && !(f.destInsecure && !f.debug) && !f.help && Atoi(f.port).Some?
      && (f.remapFieldNames != "" ==>
            remapFileOpens && !exists i :: 0 <= i < |remapLines| && LinePanics(remapLines[i]))
  {
    RemapPanicsIff(remapLines);
  }

  /**
   * A start-up that goes on has passed every check, carries the resolved destination and
   * otherwise the flags as given, and uses the empty table when no remap file is named.
   */
  lemma StartedFlags(f: Flags, remapFileOpens: bool, remapLines: seq<string>)
    requires InitFlags(f, remapFileOpens, remapLines).Started?
    ensures var s := InitFlags(f, remapFileOpens, remapLines);
      && |f.headerKeys| == |f.headerValues| && !(f.destInsecure && !f.debug) && !f.help && Atoi(f.port).Some?
      && s.flags == f.(dest := if f.dest == "localhost" then "https://localhost:" + f.port + "/reflect" else f.dest)
      && (f.remapFieldNames == "" ==> s.remap == map[])
      && (f.remapFieldNames != "" ==> remapFileOpens && RemapLines(remapLines) == Remapped(s.remap))
  {
  }

  /** With every flag at its default, the service starts aimed at its own port 9090, with an empty remap table. */
  lemma DefaultStartup(remapFileOpens: bool, remapLines: seq<string>)
    ensures InitFlags(DefaultFlags, remapFileOpens, remapLines)
      == Started(DefaultFlags.(dest := "https://localhost:9090/reflect"), map[])
  {
    assert Text.DigitsValue("9090") == 9090 by {
      assert "9090"[..3] == "909" && "909"[..2] == "90" && "90"[..1] == "9";
    }
  }
}
