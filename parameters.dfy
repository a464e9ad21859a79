/** The parameter files of the experiment drivers: `trim` and
    `read_parameter_file`, which exist in four copies that differ in the
    keys they accept and in whether the value is trimmed. The file is a
    sequence of lines plus whether it exists; `std::stoi` and `std::stod`
    are the opaque conversions `toInt` and `toReal`. */
module Parameters {
  import opened Wrappers

  /** The four copies of `read_parameter_file`. */
  datatype Reader =
    | PathExperiments   // longest_path_problem/path_max_numerical_experiments.cpp
    | LongestPathMain   // longest_path_problem/main.cpp
    | MaxIntMain        // max_int_problem/main.cpp
    | IntMaxExperiments // max_int_problem/int_max_numerical_experiments.cpp

  /** `std::string::npos`, the largest `size_t`. */
  const NPOS: nat := 0xFFFF_FFFF_FFFF_FFFF
  /** The modulus of `size_t` arithmetic. */
  const SIZE_T: nat := 0x1_0000_0000_0000_0000

  /** The characters `trim` removes: space, tab, carriage return, vertical tab (char 11) and newline. */
  predicate IsSpace(c: char)
  {
    c == ' ' || c == '\t' || c == '\r' || c == 11 as char || c == '\n'
  }

  function Min(a: nat, b: nat): nat { if a < b then a else b }

  /** An `int` reduced to `size_t`: the identity on 0..2^64-1, and -2^64
      becomes 0. */
  function SizeT(x: int): (r: nat)
    ensures r < SIZE_T
    ensures 0 <= x < SIZE_T ==> r == x
    ensures x == -(SIZE_T as int) ==> r == 0
  {
    x % SIZE_T
  }

  /** `s.find_first_not_of(" \t\r\v\n")`. */
  function FindFirstNotSpace(s: string): (r: nat)
    requires |s| < NPOS
    ensures r == NPOS || r < |s|
    ensures r < |s| ==> !IsSpace(s[r]) && forall k :: 0 <= k < r ==> IsSpace(s[k])
    ensures r == NPOS ==> forall k :: 0 <= k < |s| ==> IsSpace(s[k])
  {
    if |s| == 0 then NPOS
    else if !IsSpace(s[0]) then 0
    else
      var t := FindFirstNotSpace(s[1..]);
      if t == NPOS then NPOS else t + 1
  }

  /** `s.find_last_not_of(" \t\r\v\n")`. */
  function FindLastNotSpace(s: string): (r: nat)
    requires |s| < NPOS
    ensures r == NPOS || r < |s|
    ensures r < |s| ==> !IsSpace(s[r]) && forall k :: r < k < |s| ==> IsSpace(s[k])
    ensures r == NPOS ==> forall k :: 0 <= k < |s| ==> IsSpace(s[k])
  {
    if |s| == 0 then NPOS
    else if !IsSpace(s[|s| - 1]) then |s| - 1
    else FindLastNotSpace(s[..|s| - 1])
  }

  /** `trim`: the prefix up to the first non-blank is removed, clamped to
      the size when there is none; then the suffix after the last
      non-blank, whose length `size - find_last_not_of(...) - 1` is
      computed modulo 2^64, so that an empty view loses nothing. */
  function Trim(s: string): (r: string)
    requires |s| < NPOS
    ensures |r| <= |s|
    ensures |r| > 0 ==> !IsSpace(r[0]) && !IsSpace(r[|r| - 1])
  {
    var p := Min(FindFirstNotSpace(s), |s|);
    var t := s[p..];
    var cut := SizeT(|t| - FindLastNotSpace(t) - 1);
    var q := Min(cut, |t|);
    t[..|t| - q]
  }

  /** The result of `trim` is the contiguous part of s left when the blanks
      at both ends are removed. */
  lemma TrimSubstring(s: string)
    requires |s| < NPOS
    ensures exists i, j :: (0 <= i <= j <= |s| && Trim(s) == s[i..j]
      && (forall k :: 0 <= k < i ==> IsSpace(s[k]))
      && (forall k :: j <= k < |s| ==> IsSpace(s[k])))
  {
    var f := FindFirstNotSpace(s);
    if f == NPOS {
      assert Trim(s) == s[|s|..|s|];
    } else {
      var t := s[f..];
      var l := FindLastNotSpace(t);
      assert l < |t| by {
        assert !IsSpace(t[0]);
      }
      assert Trim(s) == t[..l + 1] == s[f..f + l + 1];
      forall k | f + l + 1 <= k < |s| ensures IsSpace(s[k]) {
        assert s[k] == t[k - f];
      }
    }
  }

  /** A string without blanks at either end is its own trim. */
  lemma TrimFixed(s: string)
    requires |s| < NPOS
    requires |s| > 0 ==> !IsSpace(s[0]) && !IsSpace(s[|s| - 1])
    ensures Trim(s) == s
  {
    if |s| > 0 {
      assert FindFirstNotSpace(s) == 0;
      assert FindLastNotSpace(s) == |s| - 1;
    }
  }

  /** Trimming twice is trimming once. */
  lemma TrimIdempotent(s: string)
    requires |s| < NPOS
    ensures Trim(Trim(s)) == Trim(s)
  {
    TrimFixed(Trim(s));
  }

  /** The first index of c in s, or |s|. */
  function FindChar(s: string, c: char): (r: nat)
    ensures r <= |s|
    ensures r < |s| ==> s[r] == c
    ensures forall k :: 0 <= k < r ==> s[k] != c
  {
    if |s| == 0 then 0
    else if s[0] == c then 0
    else FindChar(s[1..], c) + 1
  }

  /** The two `getline` calls on one line: the key runs up to the first
      '=', and the value is the rest of the line. The line is skipped when
      it is empty, has no '=', or has nothing after it. */
  function SplitLine(line: string): (r: Option<(string, string)>)
    ensures r.Some? <==> FindChar(line, '=') + 1 < |line|
    ensures r.Some? ==> line == r.value.0 + "=" + r.value.1 && '=' !in r.value.0 && |r.value.1| > 0
  {
    var e := FindChar(line, '=');
    if e + 1 < |line| then
      assert line == line[..e] + "=" + line[e + 1..];
      Some((line[..e], line[e + 1..]))
    else None
  }

  /** The fields of `RunParameters`. */
  datatype Key =
    | GraphType | GraphNodes | GraphP | RandomSeed | GraphOverrideOnes
    | NrGenerations | PopulationSize | ChromosomeLength | MutationProbability
    | CrossoverProbability | ConvergenceThreshold | NrOfElites | CrossoverType | LocalSearch

  /** The parameter file's name for each field. */
  function KeyName(k: Key): string
  {
    match k
    case GraphType => "graph_type"
    case GraphNodes => "graph_nodes"
    case GraphP => "graph_p"
    case RandomSeed => "random_seed"
    case GraphOverrideOnes => "graph_override_ones"
    case NrGenerations => "nr_generations"
    case PopulationSize => "population_size"
    case ChromosomeLength => "chromosome_length"
    case MutationProbability => "mutation_probability"
    case CrossoverProbability => "crossover_probability"
    case ConvergenceThreshold => "convergence_threshold"
    case NrOfElites => "nr_of_elites"
    case CrossoverType => "crossover_type"
    case LocalSearch => "local_search"
  }

  /** The fields in the order the `key == "..."` chain tests them. */
  const AllKeys: seq<Key> := [
    GraphType, GraphNodes, GraphP, RandomSeed, GraphOverrideOnes,
    NrGenerations, PopulationSize, ChromosomeLength, MutationProbability,
    CrossoverProbability, ConvergenceThreshold, NrOfElites, CrossoverType, LocalSearch]

  /** The first of `ks` whose name is s. */
  function Lookup(s: string, ks: seq<Key>): (r: Option<Key>)
    ensures r.Some? ==> KeyName(r.value) == s && r.value in ks
    ensures r.None? ==> forall k :: k in ks ==> KeyName(k) != s
  {
    if ks == [] then None
    else if KeyName(ks[0]) == s then Some(ks[0])
    else Lookup(s, ks[1..])
  }

  /** The `key == "..."` chain: the field a trimmed key names, if any. */
  function ParseKey(s: string): (r: Option<Key>)
    ensures r.Some? ==> KeyName(r.value) == s
  {
    Lookup(s, AllKeys)
  }

  lemma AllKeysComplete()
    ensures forall k: Key :: k in AllKeys
  {
    forall k: Key ensures k in AllKeys {
      var i := match k
        case GraphType => 0 case GraphNodes => 1 case GraphP => 2 case RandomSeed => 3
        case GraphOverrideOnes => 4 case NrGenerations => 5 case PopulationSize => 6
        case ChromosomeLength => 7 case MutationProbability => 8 case CrossoverProbability => 9
        case ConvergenceThreshold => 10 case NrOfElites => 11 case CrossoverType => 12 case LocalSearch => 13;
      assert AllKeys[i] == k;
    }
  }

  /** Different fields have different names. */
  lemma KeyNameInjective(k: Key, other: Key)
    requires KeyName(k) == KeyName(other)
    ensures k == other
  {
  }

  /** Every field's name is recognised as that field. */
  lemma ParseKeyName(k: Key)
    ensures ParseKey(KeyName(k)) == Some(k)
  {
    AllKeysComplete();
    var r := ParseKey(KeyName(k));
    assert r.Some?;
    KeyNameInjective(r.value, k);
  }

  /** Which fields a copy accepts: the path experiments all 14, the
      longest-path driver all but `crossover_type` and `local_search`, the
      max-int copies only the seven GA settings. */
  predicate Accepts(reader: Reader, k: Key)
  {
    match reader
    case PathExperiments => true
    case LongestPathMain => k != CrossoverType && k != LocalSearch
    case _ => (k.NrGenerations? || k.PopulationSize? || k.ChromosomeLength? || k.MutationProbability?
      || k.CrossoverProbability? || k.ConvergenceThreshold? || k.NrOfElites?)
  }

  /** The max-int copies trim the still empty value before reading it, so
      the value reaches the conversion untrimmed. */
  predicate TrimsValue(reader: Reader)
  {
    reader.PathExperiments? || reader.LongestPathMain?
  }

  datatype RunParameters = RunParameters(
    graphType: int, graphNodes: int, graphP: real, graphOverrideOnes: bool, randomSeed: int,
    nrGenerations: int, populationSize: int, chromosomeLength: int,
    mutationProbability: real, crossoverProbability: real,
    convergenceThreshold: int, nrOfElites: int, crossoverType: int, localSearch: bool)

  /** `RunParameters()`: every field zero. */
  const Zero: RunParameters := RunParameters(0, 0, 0.0, false, 0, 0, 0, 0, 0.0, 0.0, 0, 0, 0, false)

  datatype FieldValue = IntField(i: int) | RealField(r: real) | BoolField(b: bool)

  /** The field a key names, read from a record. */
  function Field(c: RunParameters, k: Key): FieldValue
  {
    match k
    case GraphType => IntField(c.graphType)
    case GraphNodes => IntField(c.graphNodes)
    case GraphP => RealField(c.graphP)
    case RandomSeed => IntField(c.randomSeed)
    case GraphOverrideOnes => BoolField(c.graphOverrideOnes)
    case NrGenerations => IntField(c.nrGenerations)
    case PopulationSize => IntField(c.populationSize)
    case ChromosomeLength => IntField(c.chromosomeLength)
    case MutationProbability => RealField(c.mutationProbability)
    case CrossoverProbability => RealField(c.crossoverProbability)
    case ConvergenceThreshold => IntField(c.convergenceThreshold)
    case NrOfElites => IntField(c.nrOfElites)
    case CrossoverType => IntField(c.crossoverType)
    case LocalSearch => BoolField(c.localSearch)
  }

  /** The value a key's field receives: `std::stod` for the probabilities
      and `graph_p`, `value == "true"` for the two flags, `std::stoi` for
      the rest. */
  function Convert(k: Key, value: string, toInt: string -> int, toReal: string -> real): (f: FieldValue)
    ensures k.GraphOverrideOnes? || k.LocalSearch? ==> f == BoolField(value == "true")
  {
    if k.GraphOverrideOnes? || k.LocalSearch? then BoolField(value == "true")
    else if k.GraphP? || k.MutationProbability? || k.CrossoverProbability? then RealField(toReal(value))
    else IntField(toInt(value))
  }

  /** `config.<field> = <conversion>(value)`. */
  function Assign(c: RunParameters, k: Key, value: string, toInt: string -> int, toReal: string -> real): RunParameters
  {
    match k
    case GraphType => c.(graphType := toInt(value))
    case GraphNodes => c.(graphNodes := toInt(value))
    case GraphP => c.(graphP := toReal(value))
    case RandomSeed => c.(randomSeed := toInt(value))
    case GraphOverrideOnes => c.(graphOverrideOnes := value == "true")
    case NrGenerations => c.(nrGenerations := toInt(value))
    case PopulationSize => c.(populationSize := toInt(value))
    case ChromosomeLength => c.(chromosomeLength := toInt(value))
    case MutationProbability => c.(mutationProbability := toReal(value))
    case CrossoverProbability => c.(crossoverProbability := toReal(value))
    case ConvergenceThreshold => c.(convergenceThreshold := toInt(value))
    case NrOfElites => c.(nrOfElites := toInt(value))
    case CrossoverType => c.(crossoverType := toInt(value))
    case LocalSearch => c.(localSearch := value == "true")
  }

  /** An assignment sets its own field and leaves every other one alone. */
  lemma AssignField(c: RunParameters, k: Key, other: Key, value: string, toInt: string -> int, toReal: string -> real)
    ensures Field(Assign(c, k, value, toInt, toReal), other)
      == if other == k then Convert(k, value, toInt, toReal) else Field(c, other)
  {
  }

  /** What one line of the file amounts to for a copy of the reader. */
  datatype Line =
    | Skip                              // no value: empty, no '=', nothing after it
    | Set(field: Key, value: string)    // an accepted key and the value passed on
    | Unknown(key: string)              // any other trimmed key

  /** The key is trimmed; the value is trimmed by the longest-path copies
      only; the trimmed key then either names a field the copy accepts or
      makes it throw. */
  function Classify(reader: Reader, line: string): (r: Line)
    requires |line| < NPOS
    ensures r.Skip? <==> SplitLine(line).None?
  {
    match SplitLine(line)
    case None => Skip
    case Some(kv) =>
      var key := Trim(kv.0);
      var k := ParseKey(key);
      if k.Some? && Accepts(reader, k.value) then
        Set(k.value, if TrimsValue(reader) then Trim(kv.1) else kv.1)
      else Unknown(key)
  }

  /** One pass of the reading loop on a classified line: a line without a
      value is skipped, an accepted key sets its field, any other key throws
      `runtime_error` with the key as its message. */
  function Step(c: RunParameters, l: Line, toInt: string -> int, toReal: string -> real): Result<RunParameters>
  {
    match l
    case Skip => Ok(c)
    case Set(k, value) => Ok(Assign(c, k, value, toInt, toReal))
    case Unknown(key) => Err(RuntimeError(key))
  }

  /** One pass of the reading loop on a line of the file. */
  function Process(reader: Reader, c: RunParameters, line: string, toInt: string -> int, toReal: string -> real): Result<RunParameters>
    requires |line| < NPOS
  {
    Step(c, Classify(reader, line), toInt, toReal)
  }

  /** The loop over classified lines, starting from `RunParameters()` and
      stopping at the first exception. */
  function Run(ls: seq<Line>, toInt: string -> int, toReal: string -> real): Result<RunParameters>
  {
    if ls == [] then Ok(Zero)
    else
      var prev := Run(ls[..|ls| - 1], toInt, toReal);
      if prev.Err? then prev else Step(prev.value, ls[|ls| - 1], toInt, toReal)
  }

  predicate ShortLines(lines: seq<string>)
  {
    forall i :: 0 <= i < |lines| ==> |lines[i]| < NPOS
  }

  /** Every line of the file, classified. */
  function ClassifyAll(reader: Reader, lines: seq<string>): (ls: seq<Line>)
    requires ShortLines(lines)
    ensures |ls| == |lines| && forall i :: 0 <= i < |lines| ==> ls[i] == Classify(reader, lines[i])
  {
    seq(|lines|, i requires 0 <= i < |lines| => Classify(reader, lines[i]))
  }

  /** The whole read of a file's lines. */
  function ReadLines(reader: Reader, lines: seq<string>, toInt: string -> int, toReal: string -> real): Result<RunParameters>
    requires ShortLines(lines)
  {
    Run(ClassifyAll(reader, lines), toInt, toReal)
  }

  /** Running one more line after the first i. */
  lemma RunStep(ls: seq<Line>, i: nat, toInt: string -> int, toReal: string -> real)
    requires i < |ls|
    ensures Run(ls[..i + 1], toInt, toReal)
      == var prev := Run(ls[..i], toInt, toReal);
         if prev.Err? then prev else Step(prev.value, ls[i], toInt, toReal)
  {
    assert ls[..i + 1][..i] == ls[..i];
  }

  /** Reading one more line of the file after the first i. */
  lemma ReadLinesStep(reader: Reader, lines: seq<string>, i: nat, toInt: string -> int, toReal: string -> real)
    requires ShortLines(lines) && i < |lines|
    ensures ReadLines(reader, lines[..i + 1], toInt, toReal)
      == var prev := ReadLines(reader, lines[..i], toInt, toReal);
         if prev.Err? then prev else Process(reader, prev.value, lines[i], toInt, toReal)
  {
    var ls := ClassifyAll(reader, lines[..i + 1]);
    assert ls[..i] == ClassifyAll(reader, lines[..i]);
    RunStep(ls, i, toInt, toReal);
    assert ls[..i + 1] == ls;
  }

  /** Once the first n lines have thrown, the whole read throws the same. */
  lemma ReadLinesErr(reader: Reader, lines: seq<string>, n: nat, toInt: string -> int, toReal: string -> real)
    requires ShortLines(lines) && n <= |lines|
    requires ReadLines(reader, lines[..n], toInt, toReal).Err?
    ensures ReadLines(reader, lines, toInt, toReal) == ReadLines(reader, lines[..n], toInt, toReal)
  {
    var ls := ClassifyAll(reader, lines);
    assert ls[..n] == ClassifyAll(reader, lines[..n]);
    RunErrPropagates(ls, n, toInt, toReal);
  }

  /** `read_parameter_file`: a missing file throws `invalid_argument`;
      otherwise the lines are read in order. */
  method ReadParameterFile(reader: Reader, fileExists: bool, lines: seq<string>, toInt: string -> int, toReal: string -> real)
      returns (r: Result<RunParameters>)
    requires ShortLines(lines)
    ensures !fileExists ==> r == Err(InvalidArgument)
    ensures fileExists ==> r == ReadLines(reader, lines, toInt, toReal)
  {
    if !fileExists {
      return Err(InvalidArgument);
    }
    var config := Zero;
    var i := 0;
    while i < |lines|
      invariant i <= |lines|
      invariant ReadLines(reader, lines[..i], toInt, toReal) == Ok(config)
    {
      ReadLinesStep(reader, lines, i, toInt, toReal);
      var next := Process(reader, config, lines[i], toInt, toReal);
      if next.Err? {
        ReadLinesErr(reader, lines, i + 1, toInt, toReal);
        return next;
      }
      config := next.value;
      i := i + 1;
    }
    assert lines[..i] == lines;
    r := Ok(config);
  }

  /** Once a prefix has thrown, the whole run throws the same. */
  lemma {:induction false} RunErrPropagates(ls: seq<Line>, n: nat, toInt: string -> int, toReal: string -> real)
    requires n <= |ls|
    requires Run(ls[..n], toInt, toReal).Err?
    ensures Run(ls, toInt, toReal) == Run(ls[..n], toInt, toReal)
  {
    if n < |ls| {
      var init := ls[..|ls| - 1];
      assert init[..n] == ls[..n];
      RunErrPropagates(init, n, toInt, toReal);
    } else {
      assert ls[..n] == ls;
    }
  }

  /** The value of the last line in `ls` that sets field k. */
  function LastValue(ls: seq<Line>, k: Key): (r: Option<string>)
    ensures r.Some? ==> exists i :: 0 <= i < |ls| && ls[i] == Set(k, r.value)
    ensures r.None? ==> forall i :: 0 <= i < |ls| ==> !(ls[i].Set? && ls[i].field == k)
  {
    if ls == [] then None
    else if ls[|ls| - 1].Set? && ls[|ls| - 1].field == k then Some(ls[|ls| - 1].value)
    else
      var r := LastValue(ls[..|ls| - 1], k);
      assert forall i :: 0 <= i < |ls| - 1 ==> ls[..|ls| - 1][i] == ls[i];
      r
  }

  /** A run that succeeds holds, in every field, the conversion of the
      last value given for that field, and zero for a field never given. */
  lemma {:induction false} RunFields(ls: seq<Line>, k: Key, toInt: string -> int, toReal: string -> real)
    requires Run(ls, toInt, toReal).Ok?
    ensures Field(Run(ls, toInt, toReal).value, k)
      == match LastValue(ls, k)
         case None => Field(Zero, k)
         case Some(v) => Convert(k, v, toInt, toReal)
  {
    if ls != [] {
      var init := ls[..|ls| - 1];
      var prev := Run(init, toInt, toReal);
      assert prev.Ok?;
      RunFields(init, k, toInt, toReal);
      var l := ls[|ls| - 1];
      if l.Set? {
        AssignField(prev.value, l.field, k, l.value, toInt, toReal);
      }
    }
  }

  /** The fields of a file read without error: each is the conversion of
      the last value the file gives it, or zero. */
  lemma ReadLinesFields(reader: Reader, lines: seq<string>, k: Key, toInt: string -> int, toReal: string -> real)
    requires ShortLines(lines) && ReadLines(reader, lines, toInt, toReal).Ok?
    ensures Field(ReadLines(reader, lines, toInt, toReal).value, k)
      == match LastValue(ClassifyAll(reader, lines), k)
         case None => Field(Zero, k)
         case Some(v) => Convert(k, v, toInt, toReal)
  {
    RunFields(ClassifyAll(reader, lines), k, toInt, toReal);
  }

  /** A run throws exactly when some line is an unknown key, and then with
      the message of the first one. */
  lemma {:induction false} RunRejects(ls: seq<Line>, toInt: string -> int, toReal: string -> real)
    ensures Run(ls, toInt, toReal).Err? <==> exists i :: 0 <= i < |ls| && ls[i].Unknown?
    ensures Run(ls, toInt, toReal).Err? ==> exists i :: (0 <= i < |ls| && ls[i].Unknown?
      && Run(ls, toInt, toReal).error == RuntimeError(ls[i].key)
      && forall j :: 0 <= j < i ==> !ls[j].Unknown?)
  {
    if ls != [] {
      var init := ls[..|ls| - 1];
      RunRejects(init, toInt, toReal);
      assert forall i :: 0 <= i < |init| ==> init[i] == ls[i];
      if Run(init, toInt, toReal).Err? {
        var i :| 0 <= i < |init| && init[i].Unknown? && Run(init, toInt, toReal).error == RuntimeError(init[i].key)
          && forall j :: 0 <= j < i ==> !init[j].Unknown?;
        assert ls[i].Unknown?;
      } else if ls[|ls| - 1].Unknown? {
        assert forall j :: 0 <= j < |ls| - 1 ==> !ls[j].Unknown?;
      }
    }
  }

  /** A file read throws exactly when one of its lines has a value under a
      key the copy does not accept; the message is the first such key. */
  lemma ReadLinesRejects(reader: Reader, lines: seq<string>, toInt: string -> int, toReal: string -> real)
    requires ShortLines(lines)
    ensures ReadLines(reader, lines, toInt, toReal).Err?
      <==> exists i :: 0 <= i < |lines| && Classify(reader, lines[i]).Unknown?
    ensures ReadLines(reader, lines, toInt, toReal).Err? ==>
      exists i :: 0 <= i < |lines| && Classify(reader, lines[i]).Unknown?
        && ReadLines(reader, lines, toInt, toReal).error == RuntimeError(Classify(reader, lines[i]).key)
        && forall j :: 0 <= j < i ==> !Classify(reader, lines[j]).Unknown?
  {
    RunRejects(ClassifyAll(reader, lines), toInt, toReal);
  }

  /** The index of the first c in s is e. */
  lemma {:induction false} FindCharAt(s: string, c: char, e: nat)
    requires e < |s| && s[e] == c && forall k :: 0 <= k < e ==> s[k] != c
    ensures FindChar(s, c) == e
  {
    if e > 0 {
      FindCharAt(s[1..], c, e - 1);
    }
  }

  /** A line made of a key without '=', an '=' and a nonempty value
      splits back into that key and value. */
  lemma SplitLineJoin(key: string, value: string)
    requires '=' !in key && |value| > 0
    ensures SplitLine(key + "=" + value) == Some((key, value))
  {
    var line := key + "=" + value;
    assert forall k :: 0 <= k < |key| ==> line[k] == key[k];
    FindCharAt(line, '=', |key|);
    assert line[..|key|] == key;
    assert line[|key| + 1..] == value;
  }

  predicate AllSpaces(s: string)
  {
    forall k :: 0 <= k < |s| ==> IsSpace(s[k])
  }

  /** The first non-blank of s is at i. */
  lemma FirstNotSpaceAt(s: string, i: nat)
    requires |s| < NPOS && i < |s| && !IsSpace(s[i]) && forall k :: 0 <= k < i ==> IsSpace(s[k])
    ensures FindFirstNotSpace(s) == i
  {
  }

  /** The last non-blank of s is at i. */
  lemma LastNotSpaceAt(s: string, i: nat)
    requires |s| < NPOS && i < |s| && !IsSpace(s[i]) && forall k :: i < k < |s| ==> IsSpace(s[k])
    ensures FindLastNotSpace(s) == i
  {
  }

  /** `trim` removes exactly the blanks around a string that has none at
      its own ends. */
  lemma TrimPadded(a: string, m: string, b: string)
    requires AllSpaces(a) && AllSpaces(b) && |a + m + b| < NPOS
    requires |m| > 0 ==> !IsSpace(m[0]) && !IsSpace(m[|m| - 1])
    ensures Trim(a + m + b) == m
  {
    var s := a + m + b;
    if |m| == 0 {
      assert AllSpaces(s) by {
        assert forall k :: 0 <= k < |s| ==> s[k] == (if k < |a| then a[k] else b[k - |a|]);
      }
    } else {
      FirstNotSpaceAt(s, |a|) by {
        assert s[|a|] == m[0];
        assert forall k :: 0 <= k < |a| ==> s[k] == a[k];
      }
      var t := s[|a|..];
      assert t == m + b;
      LastNotSpaceAt(t, |m| - 1) by {
        assert t[|m| - 1] == m[|m| - 1];
        assert forall k :: |m| <= k < |t| ==> t[k] == b[k - |m|];
      }
      assert t[..|m|] == m;
    }
  }

  /** A line `key=value`, with no '=' in the key and a nonempty value:
      when the trimmed key names a field the copy accepts, that field
      receives the value (trimmed by the longest-path copies, as written by
      the max-int ones); otherwise the copy throws with the trimmed key. */
  lemma ClassifyLine(reader: Reader, key: string, value: string)
    requires '=' !in key && |value| > 0 && |key + "=" + value| < NPOS
    ensures Classify(reader, key + "=" + value)
      == var k := ParseKey(Trim(key));
         if k.Some? && Accepts(reader, k.value) then Set(k.value, if TrimsValue(reader) then Trim(value) else value)
         else Unknown(Trim(key))
  {
    SplitLineJoin(key, value);
  }
}
