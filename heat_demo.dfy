/** The GUI's reading of the solvers' standard output: the grid size taken from
    the selected "NxN" entry, the `Key: value` metric lines picked out of the
    output, and the text shown in a result column. */
module HeatDemo {
  import opened Wrappers
  import opened Text
  import OmpHeat
  import SerialHeat
  import CudaHeat

  /** `int(selection.split('x')[0])`: the integer before the first `x`; `None`
      where `int()` raises. */
  function GridSizeOf(selection: string): Option<int>
  {
    PyInt(Split(selection, 'x')[0])
  }

  /** The menu's "NxN" entries give back N. */
  lemma GridSizeRoundTrip(n: int)
    ensures GridSizeOf(IntToString(n) + "x" + IntToString(n)) == Some(n)
  {
    var t := IntToString(n);
    IntTextPlain(n);
    assert t + "x" + t == t + ['x'] + t;
    SplitConcat(t, t, 'x');
    SplitWhole(t, 'x');
    IntRoundTrip(n);
  }

  /** The metrics a result column shows. */
  datatype Key = Implementation | Threads | GridSize | TimeSteps | Time | Throughput | CenterValue

  /** The order in which the parser's `elif` chain tries the keys. */
  const Keys: seq<Key> := [Implementation, Threads, GridSize, TimeSteps, Time, Throughput, CenterValue]

  function Name(k: Key): string
  {
    match k
    case Implementation => "Implementation"
    case Threads => "Threads"
    case GridSize => "GridSize"
    case TimeSteps => "TimeSteps"
    case Time => "Time"
    case Throughput => "Throughput"
    case CenterValue => "CenterValue"
  }

  /** The text the parser looks for: the key's name and a colon. */
  function Marker(k: Key): string
  {
    match k
    case Implementation => "Implementation:"
    case Threads => "Threads:"
    case GridSize => "GridSize:"
    case TimeSteps => "TimeSteps:"
    case Time => "Time:"
    case Throughput => "Throughput:"
    case CenterValue => "CenterValue:"
  }

  lemma MarkerIsName(k: Key)
    ensures Marker(k) == Name(k) + ":"
  {
  }

  /** The `metrics` dictionary; it always holds all seven keys. */
  type Metrics = map<Key, string>

  predicate Complete(m: Metrics)
  {
    Implementation in m && Threads in m && GridSize in m && TimeSteps in m &&
    Time in m && Throughput in m && CenterValue in m
  }

  const NotAvailable: string := "N/A"

  /** The dictionary before any line is read: the column's implementation name,
      the selected grid size as "NxN", and "N/A" for the rest. */
  function Defaults(implementation: string, gridSize: int): (m: Metrics)
    ensures Complete(m)
  {
    map[Implementation := implementation, Threads := NotAvailable,
        GridSize := IntToString(gridSize) + "x" + IntToString(gridSize),
        TimeSteps := NotAvailable, Time := NotAvailable, Throughput := NotAvailable,
        CenterValue := NotAvailable]
  }

  /** `line.split(":")[1].strip()`: the text between the first and the second
      colon, without surrounding white space. */
  function FieldValue(line: string): string
    requires ':' in line
  {
    SplitPieces(line, ':');
    Strip(Split(line, ':')[1])
  }

  /** The first key among `keys` whose marker occurs in the line. */
  function FirstKey(line: string, keys: seq<Key>): (r: Option<Key>)
    ensures r.Some? ==> Contains(line, Marker(r.value)) && ':' in line
  {
    if |keys| == 0 then None
    else if Contains(line, Marker(keys[0])) then
      MarkerIsName(keys[0]);
      ContainsChar(line, Marker(keys[0]), ':');
      Some(keys[0])
    else
      FirstKey(line, keys[1..])
  }

  /** No key is found exactly when the line mentions none of them. */
  lemma {:induction false} FirstKeyNone(line: string, keys: seq<Key>)
    ensures FirstKey(line, keys).None? <==> forall i | 0 <= i < |keys| :: !Contains(line, Marker(keys[i]))
  {
    if |keys| > 0 {
      FirstKeyNone(line, keys[1..]);
      assert forall i | 1 <= i < |keys| :: keys[i] == keys[1..][i - 1];
    }
  }

  /** The key found is the earliest one, in the chain's order, that the line
      mentions. */
  lemma {:induction false} FirstKeyIsEarliest(line: string, keys: seq<Key>, i: nat)
    requires i < |keys| && Contains(line, Marker(keys[i]))
    requires forall h | 0 <= h < i :: !Contains(line, Marker(keys[h]))
    ensures FirstKey(line, keys) == Some(keys[i])
  {
    if i > 0 {
      assert forall h | 0 <= h < i - 1 :: keys[1..][h] == keys[h + 1];
      FirstKeyIsEarliest(line, keys[1..], i - 1);
    }
  }

  /** The parser's `elif` chain picks exactly the first key, in order, that the
      line mentions. */
  lemma FirstKeyChain(line: string)
    ensures FirstKey(line, Keys) ==
      if Contains(line, "Implementation:") then Some(Implementation)
      else if Contains(line, "Threads:") then Some(Threads)
      else if Contains(line, "GridSize:") then Some(GridSize)
      else if Contains(line, "TimeSteps:") then Some(TimeSteps)
      else if Contains(line, "Time:") then Some(Time)
      else if Contains(line, "Throughput:") then Some(Throughput)
      else if Contains(line, "CenterValue:") then Some(CenterValue)
      else None
  {
    var k1 := [Threads, GridSize, TimeSteps, Time, Throughput, CenterValue];
    var k2 := [GridSize, TimeSteps, Time, Throughput, CenterValue];
    var k3 := [TimeSteps, Time, Throughput, CenterValue];
    var k4 := [Time, Throughput, CenterValue];
    var k5 := [Throughput, CenterValue];
    var k6 := [CenterValue];
    assert Keys[1..] == k1 && k1[1..] == k2 && k2[1..] == k3 && k3[1..] == k4;
    assert k4[1..] == k5 && k5[1..] == k6 && k6[1..] == [];
    assert FirstKey(line, k6) == if Contains(line, "CenterValue:") then Some(CenterValue) else FirstKey(line, []);
    assert FirstKey(line, k5) == if Contains(line, "Throughput:") then Some(Throughput) else FirstKey(line, k6);
    assert FirstKey(line, k4) == if Contains(line, "Time:") then Some(Time) else FirstKey(line, k5);
    assert FirstKey(line, k3) == if Contains(line, "TimeSteps:") then Some(TimeSteps) else FirstKey(line, k4);
    assert FirstKey(line, k2) == if Contains(line, "GridSize:") then Some(GridSize) else FirstKey(line, k3);
    assert FirstKey(line, k1) == if Contains(line, "Threads:") then Some(Threads) else FirstKey(line, k2);
  }

  /** A line read as key `k` stores its field value under `k`. */
  lemma ApplyLineFirst(m: Metrics, line: string, k: Key)
    requires Complete(m) && FirstKey(line, Keys) == Some(k)
    ensures ApplyLine(m, line)[k] == FieldValue(line)
  {
  }

  /** A line read as a different key leaves key `k` alone. */
  lemma ApplyLineOther(m: Metrics, line: string, k: Key)
    requires Complete(m) && FirstKey(line, Keys) != Some(k)
    ensures ApplyLine(m, line)[k] == m[k]
  {
  }

  /** What one line does to the dictionary: the first key it mentions, in the
      chain's order, takes the line's field value; a line that mentions none
      changes nothing. */
  function ApplyLine(m: Metrics, line: string): (r: Metrics)
    requires Complete(m)
    ensures Complete(r)
  {
    match FirstKey(line, Keys)
    case None => m
    case Some(k) => m[k := FieldValue(line)]
  }

  /** The dictionary after the lines, read in order. */
  function ParseLines(m: Metrics, lines: seq<string>): (r: Metrics)
    requires Complete(m)
    ensures Complete(r)
  {
    if |lines| == 0 then m else ApplyLine(ParseLines(m, lines[..|lines| - 1]), lines[|lines| - 1])
  }

  /** The parsing part of `parse_and_visualize`: split the output at newlines and
      run every line through the `elif` chain, updating `metrics` in place. */
  method ParseMetrics(output: string, implementation: string, gridSize: int) returns (metrics: Metrics)
    ensures metrics == ParseLines(Defaults(implementation, gridSize), Split(output, '\n'))
  {
    var lines := Split(output, '\n');
    metrics := Defaults(implementation, gridSize);
    for n := 0 to |lines|
      invariant Complete(metrics)
      invariant metrics == ParseLines(Defaults(implementation, gridSize), lines[..n])
    {
      metrics := UpdateMetrics(metrics, lines[n]);
      assert lines[..n + 1][..n] == lines[..n];
    }
    assert lines[..|lines|] == lines;
  }

  /** One pass of the loop's body: the `elif` chain tests the keys in order and
      stores the field value under the first one the line mentions. */
  method UpdateMetrics(m: Metrics, line: string) returns (r: Metrics)
    requires Complete(m)
    ensures r == ApplyLine(m, line)
  {
    r := m;
    if Contains(line, "Implementation:") {
      ContainsChar(line, "Implementation:", ':');
      r := m[Implementation := FieldValue(line)];
    } else if Contains(line, "Threads:") {
      ContainsChar(line, "Threads:", ':');
      r := m[Threads := FieldValue(line)];
    } else if Contains(line, "GridSize:") {
      ContainsChar(line, "GridSize:", ':');
      r := m[GridSize := FieldValue(line)];
    } else if Contains(line, "TimeSteps:") {
      ContainsChar(line, "TimeSteps:", ':');
      r := m[TimeSteps := FieldValue(line)];
    } else if Contains(line, "Time:") {
      ContainsChar(line, "Time:", ':');
      r := m[Time := FieldValue(line)];
    } else if Contains(line, "Throughput:") {
      ContainsChar(line, "Throughput:", ':');
      r := m[Throughput := FieldValue(line)];
    } else if Contains(line, "CenterValue:") {
      ContainsChar(line, "CenterValue:", ':');
      r := m[CenterValue := FieldValue(line)];
    }
    assert r == ApplyLine(m, line) by {
      FirstKeyChain(line);
    }
  }

  /** A line that mentions no key leaves every metric as it was, so output
      without key lines leaves the defaults. */
  lemma {:induction false} UnmatchedLinesKeep(m: Metrics, lines: seq<string>)
    requires Complete(m)
    requires forall i | 0 <= i < |lines| :: FirstKey(lines[i], Keys).None?
    ensures ParseLines(m, lines) == m
  {
    if |lines| > 0 {
      UnmatchedLinesKeep(m, lines[..|lines| - 1]);
    }
  }

  /** The last line that mentions a key decides that key's value: later lines
      overwrite earlier ones. */
  lemma {:induction false} LaterLineWins(m: Metrics, before: seq<string>, line: string, after: seq<string>, k: Key)
    requires Complete(m) && FirstKey(line, Keys) == Some(k)
    requires forall i | 0 <= i < |after| :: FirstKey(after[i], Keys) != Some(k)
    ensures ParseLines(m, before + [line] + after)[k] == FieldValue(line)
  {
    if |after| == 0 {
      assert before + [line] + after == before + [line];
      ParseAppendFirst(m, before, line, k);
    } else {
      var init, x := after[..|after| - 1], after[|after| - 1];
      var lines := before + [line] + init;
      SplitLast(before + [line], after);
      assert ParseLines(m, lines)[k] == FieldValue(line) by {
        forall i | 0 <= i < |init| ensures FirstKey(init[i], Keys) != Some(k) {
          assert init[i] == after[i];
        }
        LaterLineWins(m, before, line, init, k);
      }
      ParseAppendOther(m, lines, x, k);
    }
  }

  /** A non-empty tail splits off its last element. */
  lemma SplitLast(front: seq<string>, after: seq<string>)
    requires |after| > 0
    ensures front + after == (front + after[..|after| - 1]) + [after[|after| - 1]]
  {
    assert after == after[..|after| - 1] + [after[|after| - 1]];
  }

  /** Appending a line read as `k` stores its field value under `k`. */
  lemma ParseAppendFirst(m: Metrics, lines: seq<string>, x: string, k: Key)
    requires Complete(m) && FirstKey(x, Keys) == Some(k)
    ensures ParseLines(m, lines + [x])[k] == FieldValue(x)
  {
    var all := lines + [x];
    assert all[..|all| - 1] == lines;
    ApplyLineFirst(ParseLines(m, lines), x, k);
  }

  /** Appending a line not read as `k` leaves `k` as it was. */
  lemma ParseAppendOther(m: Metrics, lines: seq<string>, x: string, k: Key)
    requires Complete(m) && FirstKey(x, Keys) != Some(k)
    ensures ParseLines(m, lines + [x])[k] == ParseLines(m, lines)[k]
  {
    var all := lines + [x];
    assert all[..|all| - 1] == lines;
    ApplyLineOther(ParseLines(m, lines), x, k);
  }

  /** The last two letters of each key's name; no two keys share them. */
  function Ending(k: Key): (char, char)
  {
    match k
    case Implementation => ('o', 'n')
    case Threads => ('d', 's')
    case GridSize => ('z', 'e')
    case TimeSteps => ('p', 's')
    case Time => ('m', 'e')
    case Throughput => ('u', 't')
    case CenterValue => ('u', 'e')
  }

  lemma NameEnding(k: Key)
    ensures var n := Name(k); |n| >= 2 && ':' !in n && (n[|n| - 2], n[|n| - 1]) == Ending(k)
  {
  }

  lemma EndingsApart(j: Key, k: Key)
    requires Ending(j) == Ending(k)
    ensures j == k
  {
  }

  /** Two characters that end some key's name. */
  predicate EndsLikeKey(x: char, y: char)
  {
    (x, y) in {('o', 'n'), ('d', 's'), ('z', 'e'), ('p', 's'), ('m', 'e'), ('u', 't'), ('u', 'e')}
  }

  /** Where `Name(j)` ends `a`, the two share their last two characters. */
  lemma SuffixEnding(j: Key, a: string)
    requires IsSuffix(Name(j), a)
    ensures |a| >= 2 && (a[|a| - 2], a[|a| - 1]) == Ending(j)
  {
    var n := Name(j);
    NameEnding(j);
    assert a[|a| - 2] == a[|a| - |n|..][|n| - 2];
    assert a[|a| - 1] == a[|a| - |n|..][|n| - 1];
  }

  /** The position of each key in the chain. */
  function KeyIndex(k: Key): (i: nat)
    ensures i < |Keys| && Keys[i] == k
  {
    match k
    case Implementation => 0
    case Threads => 1
    case GridSize => 2
    case TimeSteps => 3
    case Time => 4
    case Throughput => 5
    case CenterValue => 6
  }

  /** A printed `Key: value` line is read as that key, and its value comes back
      when it holds no colon and no outer white space. */
  lemma KeyLineParses(k: Key, v: string)
    requires ':' !in v && Trimmed(v)
    ensures FirstKey(Name(k) + ": " + v, Keys) == Some(k)
    ensures ':' in Name(k) + ": " + v && FieldValue(Name(k) + ": " + v) == v
  {
    var a, b := Name(k), " " + v;
    NameEnding(k);
    assert Name(k) + ": " + v == a + ":" + b;
    assert FirstKey(a + ":" + b, Keys) == Some(k) by {
      KeyLineKey(k, b);
    }
    assert FieldValue(a + ":" + b) == v by {
      KeyLineValue(a, v);
    }
  }

  lemma KeyLineKey(k: Key, b: string)
    requires ':' !in b
    ensures FirstKey(Name(k) + ":" + b, Keys) == Some(k)
  {
    var a := Name(k);
    var line := a + ":" + b;
    NameEnding(k);
    MarkerIsName(k);
    assert a[|a| - |a|..] == a;
    KeyBeforeColon(a, b, a);
    FirstKeyNone(line, Keys);
    assert Keys[KeyIndex(k)] == k;
    var j := FirstKey(line, Keys).value;
    NameEnding(j);
    MarkerIsName(j);
    KeyBeforeColon(a, b, Name(j));
    SuffixEnding(j, a);
    EndingsApart(j, k);
  }

  lemma KeyLineValue(a: string, v: string)
    requires ':' !in a && ':' !in v && Trimmed(v)
    ensures ':' in a + ": " + v && FieldValue(a + ": " + v) == v
  {
    var b := " " + v;
    assert a + ": " + v == a + [':'] + b;
    SplitConcat(a, b, ':');
    SplitWhole(a, ':');
    SplitWhole(b, ':');
    StripPadded(" ", v);
  }

  /** A line `a:b` whose only colon follows text that does not end like a key
      name mentions no key. */
  lemma NoKeyLine(a: string, b: string)
    requires ':' !in a && ':' !in b
    requires |a| < 2 || !EndsLikeKey(a[|a| - 2], a[|a| - 1])
    ensures FirstKey(a + ":" + b, Keys).None?
  {
    forall i | 0 <= i < |Keys| ensures !Contains(a + ":" + b, Marker(Keys[i])) {
      NameEnding(Keys[i]);
      MarkerIsName(Keys[i]);
      KeyBeforeColon(a, b, Name(Keys[i]));
      if IsSuffix(Name(Keys[i]), a) {
        SuffixEnding(Keys[i], a);
        assert false;
      }
    }
    FirstKeyNone(a + ":" + b, Keys);
  }

  /** A formatted figure: no colon, no newline, no white space at either end. */
  predicate Figure(s: string)
  {
    ':' !in s && '\n' !in s && Trimmed(s)
  }

  /** The dictionary after the first `n` keys, in the chain's order, took
      `values[0..n)`. */
  function Written(m: Metrics, values: seq<string>, n: nat): (r: Metrics)
    requires Complete(m) && n <= |values| && n <= |Keys|
    ensures Complete(r)
  {
    if n == 0 then m else Written(m, values, n - 1)[Keys[n - 1] := values[n - 1]]
  }

  /** Reading one `Key: value` line per key, in the chain's order, stores each
      value under its key. */
  lemma {:induction false} KeyLinesRead(m: Metrics, lines: seq<string>, values: seq<string>, n: nat)
    requires Complete(m) && n <= |lines| && n <= |values| && n <= |Keys|
    requires forall i | 0 <= i < n :: lines[i] == Name(Keys[i]) + ": " + values[i] &&
                                       ':' !in values[i] && Trimmed(values[i])
    ensures ParseLines(m, lines[..n]) == Written(m, values, n)
  {
    if n > 0 {
      var k, v := Keys[n - 1], values[n - 1];
      var before := Written(m, values, n - 1);
      assert ParseLines(m, lines[..n - 1]) == before by {
        KeyLinesRead(m, lines, values, n - 1);
      }
      assert ApplyLine(before, lines[n - 1]) == before[k := v] by {
        KeyLineParses(k, v);
      }
      assert lines[..n][..n - 1] == lines[..n - 1];
    }
  }

  /** Text free of colons, newlines and white space. */
  predicate Plain(s: string)
  {
    forall k | 0 <= k < |s| :: s[k] != ':' && s[k] != '\n' && !IsSpace(s[k])
  }

  lemma PlainInt(n: int)
    ensures Plain(IntToString(n))
  {
    IntTextPlain(n);
    var s := IntToString(n);
    forall k | 0 <= k < |s| ensures s[k] != '\n' {
    }
  }

  lemma PlainIsFigure(s: string)
    requires Plain(s)
    ensures ':' !in s && '\n' !in s && Trimmed(s)
  {
  }

  /** The empty text after the last newline mentions no key. */
  lemma EmptyLineNoKey()
    ensures FirstKey("", Keys).None?
  {
    FirstKeyNone("", Keys);
  }

  /** Each key appears once in the chain. */
  lemma KeysDistinct(i: nat, j: nat)
    requires i < |Keys| && j < |Keys| && Keys[i] == Keys[j]
    ensures i == j
  {
    assert KeyIndex(Keys[i]) == i && KeyIndex(Keys[j]) == j;
  }

  /** After the first `n` keys were written, key `i < n` holds `values[i]`. */
  lemma {:induction false} WrittenAt(m: Metrics, values: seq<string>, n: nat, i: nat)
    requires Complete(m) && n <= |values| && n <= |Keys| && i < n
    ensures Written(m, values, n)[Keys[i]] == values[i]
  {
    if i < n - 1 {
      WrittenAt(m, values, n - 1, i);
      if Keys[i] == Keys[n - 1] {
        KeysDistinct(i, n - 1);
      }
    }
  }

  /** A key line is one line when its value is. */
  lemma KeyLineSingle(k: Key, v: string)
    requires '\n' !in v
    ensures '\n' !in Name(k) + ": " + v
  {
    NameEnding(k);
  }

  /** The OpenMP report is seven `Key: value` lines, one per key in the chain's
      order, whose values are figures. */
  lemma OmpReportLines(s: OmpHeat.Size, elapsed: string, mlups: string, center: string)
    requires Figure(elapsed) && Figure(mlups) && Figure(center)
    ensures var report := OmpHeat.OmpReport(s, elapsed, mlups, center);
            var values := OmpValues(s, elapsed, mlups, center);
            |report| == |values| == 7 &&
            forall i | 0 <= i < 7 :: report[i] == Name(Keys[i]) + ": " + values[i] &&
                                    ':' !in values[i] && '\n' !in report[i] && Trimmed(values[i])
  {
    var report := OmpHeat.OmpReport(s, elapsed, mlups, center);
    var values := OmpValues(s, elapsed, mlups, center);
    assert Name(Implementation) + ": " == "Implementation: ";
    assert Name(Threads) + ": " == "Threads: ";
    assert Name(GridSize) + ": " == "GridSize: ";
    assert Name(TimeSteps) + ": " == "TimeSteps: ";
    assert Name(Time) + ": " == "Time: ";
    assert Name(Throughput) + ": " == "Throughput: ";
    assert Name(CenterValue) + ": " == "CenterValue: ";
    PlainInt(OmpHeat.Threads);
    PlainInt(s.nx);
    PlainInt(s.ny);
    PlainInt(s.nt);
    assert Plain(values[2]);
    assert Plain("OpenMP");
    forall i | 0 <= i < 7 ensures ':' !in values[i] && '\n' !in values[i] && Trimmed(values[i]) {
      if i < 4 {
        PlainIsFigure(values[i]);
      }
    }
    forall i | 0 <= i < 7 ensures '\n' !in report[i] {
      KeyLineSingle(Keys[i], values[i]);
    }
  }

  /** The values the OpenMP report prints, in its order. */
  function OmpValues(s: OmpHeat.Size, elapsed: string, mlups: string, center: string): seq<string>
  {
    ["OpenMP", IntToString(OmpHeat.Threads), IntToString(s.nx) + "x" + IntToString(s.ny),
     IntToString(s.nt), elapsed, mlups, center]
  }

  /** Reading the OpenMP solver's report stores its seven values, in order. */
  lemma OmpReportParses(s: OmpHeat.Size, elapsed: string, mlups: string, center: string, m: Metrics)
    requires Figure(elapsed) && Figure(mlups) && Figure(center) && Complete(m)
    ensures ParseLines(m, Split(Emit(OmpHeat.OmpReport(s, elapsed, mlups, center)), '\n'))
            == Written(m, OmpValues(s, elapsed, mlups, center), 7)
  {
    var report := OmpHeat.OmpReport(s, elapsed, mlups, center);
    var values := OmpValues(s, elapsed, mlups, center);
    OmpReportLines(s, elapsed, mlups, center);
    assert ParseLines(m, report) == Written(m, values, 7) by {
      KeyLinesRead(m, report, values, 7);
      assert report[..7] == report;
    }
    assert Split(Emit(report), '\n') == report + [""] by {
      SplitEmit(report, "");
      assert Emit(report) + "" == Emit(report);
    }
    var lines := report + [""];
    assert lines[..|lines| - 1] == report;
    EmptyLineNoKey();
  }

  /** Reading the OpenMP solver's report recovers every value it printed. */
  lemma OmpReportRoundTrip(s: OmpHeat.Size, elapsed: string, mlups: string, center: string,
                           implementation: string, gridSize: int)
    requires Figure(elapsed) && Figure(mlups) && Figure(center)
    ensures var r := ParseLines(Defaults(implementation, gridSize),
                                Split(Emit(OmpHeat.OmpReport(s, elapsed, mlups, center)), '\n'));
            r[Implementation] == "OpenMP" && r[Threads] == IntToString(OmpHeat.Threads) &&
            r[GridSize] == IntToString(s.nx) + "x" + IntToString(s.ny) &&
            r[TimeSteps] == IntToString(s.nt) &&
            r[Time] == elapsed && r[Throughput] == mlups && r[CenterValue] == center
  {
    var m := Defaults(implementation, gridSize);
    var values := OmpValues(s, elapsed, mlups, center);
    OmpReportParses(s, elapsed, mlups, center, m);
    WrittenAt(m, values, 7, 0);
    WrittenAt(m, values, 7, 1);
    WrittenAt(m, values, 7, 2);
    WrittenAt(m, values, 7, 3);
    WrittenAt(m, values, 7, 4);
    WrittenAt(m, values, 7, 5);
    WrittenAt(m, values, 7, 6);
  }

  /** The serial and CUDA reports put a space before every colon, so their
      lines mention no key and every metric keeps its default. */
  lemma SerialReportKeepsDefaults(elapsed: string, mlups: string, center: string,
                                  implementation: string, gridSize: int)
    requires Figure(elapsed) && Figure(mlups) && Figure(center)
    ensures ParseLines(Defaults(implementation, gridSize),
                       Split(Emit(SerialHeat.SerialReport(elapsed, mlups, center)), '\n'))
            == Defaults(implementation, gridSize)
  {
    var report := SerialHeat.SerialReport(elapsed, mlups, center);
    ResultLinesMentionNoKey(elapsed, mlups, center);
    HeaderNoKey("Serial run");
    assert report[0] == "Serial run" + ":";
    ReportMentionsNoKey(report);
  }

  /** A report's header, a title and a colon, mentions no key when the title
      does not end like a key name. */
  lemma HeaderNoKey(title: string)
    requires ':' !in title && '\n' !in title
    requires |title| < 2 || !EndsLikeKey(title[|title| - 2], title[|title| - 1])
    ensures '\n' !in title + ":" && FirstKey(title + ":", Keys).None?
  {
    assert title + ":" == title + ":" + "";
    NoKeyLine(title, "");
  }

  lemma CudaReportKeepsDefaults(elapsed: string, mlups: string, center: string,
                                implementation: string, gridSize: int)
    requires Figure(elapsed) && Figure(mlups) && Figure(center)
    ensures ParseLines(Defaults(implementation, gridSize),
                       Split(Emit(CudaHeat.CudaReport(elapsed, mlups, center)), '\n'))
            == Defaults(implementation, gridSize)
  {
    var report := CudaHeat.CudaReport(elapsed, mlups, center);
    ResultLinesMentionNoKey(elapsed, mlups, center);
    HeaderNoKey("CUDA run (GPU)");
    assert report[0] == "CUDA run (GPU)" + ":";
    ReportMentionsNoKey(report);
  }

  /** The three aligned result lines mention no key. */
  lemma ResultLinesMentionNoKey(elapsed: string, mlups: string, center: string)
    requires Figure(elapsed) && Figure(mlups) && Figure(center)
    ensures forall i | 0 <= i < 3 :: var line := SerialHeat.ResultLines(elapsed, mlups, center)[i];
              '\n' !in line && FirstKey(line, Keys).None?
  {
    forall i | 0 <= i < 3
      ensures var line := SerialHeat.ResultLines(elapsed, mlups, center)[i];
              '\n' !in line && FirstKey(line, Keys).None?
    {
      ResultLineNoKey(elapsed, mlups, center, i);
    }
  }

  /** Result line i, whose caption is padded with spaces before its colon,
      mentions no key. */
  lemma ResultLineNoKey(elapsed: string, mlups: string, center: string, i: int)
    requires Figure(elapsed) && Figure(mlups) && Figure(center) && 0 <= i < 3
    ensures var line := SerialHeat.ResultLines(elapsed, mlups, center)[i];
            '\n' !in line && FirstKey(line, Keys).None?
  {
    if i == 0 {
      AlignedLineNoKey("  Time           ", elapsed, " s");
    } else if i == 1 {
      AlignedLineNoKey("  Throughput     ", mlups, " MLUPS");
    } else {
      AlignedLineNoKey("  u_center (mid) ", center, "");
    }
  }

  /** A result line `caption: value unit` whose caption ends in a space mentions no key. */
  lemma AlignedLineNoKey(caption: string, v: string, unit: string)
    requires |caption| >= 2 && caption[|caption| - 1] == ' '
    requires ':' !in caption && '\n' !in caption && ':' !in unit && '\n' !in unit
    requires Figure(v)
    ensures var line := SerialHeat.ResultLine(caption, v, unit);
            '\n' !in line && FirstKey(line, Keys).None?
  {
    var b := " " + v + unit;
    assert SerialHeat.ResultLine(caption, v, unit) == caption + ":" + b;
    NoKeyLine(caption, b);
  }

  /** Output made of newline-free lines that mention no key leaves the defaults. */
  lemma ReportMentionsNoKey(report: seq<string>)
    requires forall i | 0 <= i < |report| :: '\n' !in report[i] && FirstKey(report[i], Keys).None?
    ensures forall implementation: string, gridSize: int ::
              ParseLines(Defaults(implementation, gridSize), Split(Emit(report), '\n')) == Defaults(implementation, gridSize)
  {
    SplitEmit(report, "");
    assert Emit(report) + "" == Emit(report);
    var lines := report + [""];
    assert FirstKey("", Keys).None?;
    assert forall i | 0 <= i < |lines| :: FirstKey(lines[i], Keys).None?;
    forall implementation: string, gridSize: int
      ensures ParseLines(Defaults(implementation, gridSize), lines) == Defaults(implementation, gridSize)
    {
      UnmatchedLinesKeep(Defaults(implementation, gridSize), lines);
    }
  }

  /** The rule under the heading: thirty `=`. */
  const Rule: string := "=============================="

  /** The lines of a column's metrics text, in order; the Threads line only when
      a thread count was read. */
  function DisplayLines(m: Metrics): seq<string>
    requires Complete(m)
  {
    [m[Implementation] + " Results:", Rule, "Grid: " + m[GridSize], "Steps: " + m[TimeSteps]]
    + (if m[Threads] != NotAvailable then ["Threads: " + m[Threads]] else [])
    + ["Time: " + m[Time] + " s", "Throughput: " + m[Throughput] + " MLUPS", "Center Temp: " + m[CenterValue]]
  }

  /** The Threads line is shown exactly when Threads is not "N/A"; the other seven
      lines are always shown, in the same order. */
  lemma ThreadsLineIff(m: Metrics)
    requires Complete(m)
    ensures ("Threads: " + m[Threads] in DisplayLines(m)) <==> m[Threads] != NotAvailable
    ensures var d := DisplayLines(m);
            |d| == (if m[Threads] != NotAvailable then 8 else 7) &&
            d[..4] + d[|d| - 3..] == FixedLines(m)
  {
    var d := DisplayLines(m);
    var f := FixedLines(m);
    var t := "Threads: " + m[Threads];
    if m[Threads] == NotAvailable {
      assert d == f;
      assert t == "Threads: N/A";
      assert t[0] == 'T' && t[|t| - 1] == 'A';
      var h := f[0];
      assert h[|h| - 1] == ':';
      assert f[1][0] == '=' && f[2][0] == 'G' && f[3][0] == 'S' && f[6][0] == 'C';
      var ti, th := f[4], f[5];
      assert ti[|ti| - 1] == 's' && th[|th| - 1] == 'S';
      assert t != h && t != f[1] && t != f[2] && t != f[3] && t != ti && t != th && t != f[6];
    } else {
      assert d == f[..4] + [t] + f[4..];
      assert d[4] == t;
      assert d[..4] == f[..4] && d[|d| - 3..] == f[4..];
    }
  }

  /** The seven lines shown whatever was read. */
  function FixedLines(m: Metrics): seq<string>
    requires Complete(m)
  {
    [m[Implementation] + " Results:", Rule, "Grid: " + m[GridSize], "Steps: " + m[TimeSteps],
     "Time: " + m[Time] + " s", "Throughput: " + m[Throughput] + " MLUPS", "Center Temp: " + m[CenterValue]]
  }

  /** The display string built with `+=`, one line at a time. */
  method ShowMetrics(m: Metrics) returns (text: string)
    requires Complete(m)
    ensures text == Emit(DisplayLines(m))
  {
    ghost var shown: seq<string> := [];
    assert Emit(shown) == "";
    text := m[Implementation] + " Results:" + "\n";
    EmitAppend(shown, m[Implementation] + " Results:");
    shown := shown + [m[Implementation] + " Results:"];
    assert text == Emit(shown);
    text := text + Rule + "\n";
    EmitAppend(shown, Rule);
    shown := shown + [Rule];
    assert text == Emit(shown);
    text := text + ("Grid: " + m[GridSize]) + "\n";
    EmitAppend(shown, "Grid: " + m[GridSize]);
    shown := shown + ["Grid: " + m[GridSize]];
    assert text == Emit(shown);
    text := text + ("Steps: " + m[TimeSteps]) + "\n";
    EmitAppend(shown, "Steps: " + m[TimeSteps]);
    shown := shown + ["Steps: " + m[TimeSteps]];
    assert text == Emit(shown);
    if m[Threads] != NotAvailable {
      text := text + ("Threads: " + m[Threads]) + "\n";
      EmitAppend(shown, "Threads: " + m[Threads]);
      shown := shown + ["Threads: " + m[Threads]];
      assert text == Emit(shown);
    }
    text := text + ("Time: " + m[Time] + " s") + "\n";
    EmitAppend(shown, "Time: " + m[Time] + " s");
    shown := shown + ["Time: " + m[Time] + " s"];
    assert text == Emit(shown);
    text := text + ("Throughput: " + m[Throughput] + " MLUPS") + "\n";
    EmitAppend(shown, "Throughput: " + m[Throughput] + " MLUPS");
    shown := shown + ["Throughput: " + m[Throughput] + " MLUPS"];
    assert text == Emit(shown);
    text := text + ("Center Temp: " + m[CenterValue]) + "\n";
    EmitAppend(shown, "Center Temp: " + m[CenterValue]);
    shown := shown + ["Center Temp: " + m[CenterValue]];
    assert text == Emit(shown);
    assert shown == DisplayLines(m);
  }
}
