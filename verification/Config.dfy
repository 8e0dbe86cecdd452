/**
  The configuration file (Util/ConfigFileReader.cpp): loading it line by line and writing it back.

  `Load` and `Printed` are the file formats on strings.  Lines are read through a buffer of 256 bytes and written
  through one of 128, and both cut what does not fit; `StableIff` says exactly when a configuration survives being
  written and loaded again.
 */
module Config {
  import opened Bytes

  const NUL: char := '\0'
  const READ_LIMIT: nat := 255
  const WRITE_LIMIT: nat := 127

  type Settings = map<string, string>

  // ---------- reading ----------

  predicate Blank(c: char) {
    c == ' ' || c == '\t' || c == '\r'
  }

  function TrimLeft(s: string): string {
    if s != [] && Blank(s[0]) then TrimLeft(s[1..]) else s
  }

  function TrimRight(s: string): string {
    if s != [] && Blank(s[|s| - 1]) then TrimRight(s[..|s| - 1]) else s
  }

  /** `TrimSpace`, which answers NULL where this is empty. */
  function Trim(s: string): string {
    TrimRight(TrimLeft(s))
  }

  /** The position of the first `c`, or the length. */
  function Find(s: string, c: char): (n: nat)
    ensures n <= |s| && c !in s[..n] && (n < |s| ==> s[n] == c)
  {
    if s == [] || s[0] == c then 0 else 1 + Find(s[1..], c)
  }

  /** How much of the text one `fgets` takes. */
  function ChunkLength(text: string): (n: nat)
    ensures n <= |text| && (text != [] ==> 0 < n)
  {
    var line := Find(text, '\n') + 1;
    if line <= READ_LIMIT && line <= |text| then line
    else if READ_LIMIT <= |text| then READ_LIMIT
    else |text|
  }

  /** The pair on a line, if there is one. */
  function PairOf(left: string, right: string): Option<(string, string)> {
    var key, value := Trim(left), Trim(right);
    if key == [] || value == [] then None else Some((key, value))
  }

  function ParseLine(line: string): Option<(string, string)> {
    var p := Find(line, '=');
    if p == |line| then None else PairOf(line[..p], line[p + 1..])
  }

  function WithoutNewline(s: string): string {
    if s != [] && s[|s| - 1] == '\n' then s[..|s| - 1] else s
  }

  /** A line without its newline and its comment. */
  function Stripped(s: string): string {
    var line := WithoutNewline(s); line[..Find(line, '#')]
  }

  /** What C takes for the string in a buffer that starts with `chunk` and a NUL. */
  function UpToNul(chunk: string): string {
    chunk[..Find(chunk, NUL)]
  }

  function ParseChunk(chunk: string): Option<(string, string)> {
    ParseLine(Stripped(UpToNul(chunk)))
  }

  /** `std::map::insert`: the first binding of a key stays. */
  function Insert(m: Settings, pair: Option<(string, string)>): Settings {
    match pair
    case None => m
    case Some((key, value)) => if key in m then m else m[key := value]
  }

  function Load(text: string, m: Settings): Settings
    decreases |text|
  {
    if text == [] then m
    else
      var n := ChunkLength(text);
      Load(text[n..], Insert(m, ParseChunk(text[..n])))
  }

  // ---------- writing ----------

  /** A pair as `snprintf` leaves it in a buffer of 128 bytes. */
  function PrintedPair(key: string, value: string): (s: string)
    ensures 0 < |s| <= WRITE_LIMIT
  {
    var s := key + "=" + value + "\n";
    if |s| <= WRITE_LIMIT then s else s[..WRITE_LIMIT]
  }

  /** `WriteToFile` for the pairs in the order `keys`. */
  function Printed(keys: seq<string>, m: Settings): string
    requires forall k <- keys :: k in m
  {
    if keys == [] then [] else PrintedPair(keys[0], m[keys[0]]) + Printed(keys[1..], m)
  }

  // ---------- what is loaded ----------

  ghost predicate NoneOf(s: string, forbidden: set<char>) {
    forall c <- s :: c !in forbidden
  }

  /** A trimmed, non-empty string that fits on a line. */
  ghost predicate Clean(s: string) {
    s != [] && !Blank(s[0]) && !Blank(s[|s| - 1]) && NoneOf(s, {'#', '\n', NUL})
  }

  ghost predicate CleanPair(key: string, value: string) {
    Clean(key) && Clean(value) && '=' !in key
  }

  ghost predicate AllClean(m: Settings) {
    forall k <- m :: CleanPair(k, m[k])
  }

  lemma {:induction false} TrimLeftIsSuffix(s: string)
    ensures |TrimLeft(s)| <= |s| && TrimLeft(s) == s[|s| - |TrimLeft(s)|..]
    ensures TrimLeft(s) != [] ==> !Blank(TrimLeft(s)[0])
  {
    if s != [] && Blank(s[0]) { TrimLeftIsSuffix(s[1..]); }
  }

  lemma {:induction false} TrimRightIsPrefix(s: string)
    ensures |TrimRight(s)| <= |s| && TrimRight(s) == s[..|TrimRight(s)|]
    ensures TrimRight(s) != [] ==> !Blank(TrimRight(s)[|TrimRight(s)| - 1])
    decreases |s|
  {
    if s != [] && Blank(s[|s| - 1]) { TrimRightIsPrefix(s[..|s| - 1]); }
  }

  lemma TrimIsClean(s: string, forbidden: set<char>)
    requires NoneOf(s, forbidden) && Trim(s) != []
    ensures !Blank(Trim(s)[0]) && !Blank(Trim(s)[|Trim(s)| - 1]) && NoneOf(Trim(s), forbidden)
  {
    TrimLeftIsSuffix(s);
    TrimRightIsPrefix(TrimLeft(s));
    assert Trim(s)[0] == TrimLeft(s)[0];
    assert forall c <- Trim(s) :: c in TrimLeft(s);
    assert forall c <- TrimLeft(s) :: c in s;
  }

  lemma TrimOfClean(s: string)
    requires s != [] && !Blank(s[0]) && !Blank(s[|s| - 1])
    ensures Trim(s) == s
  {}

  lemma NewlineOnlyAtEnd(text: string)
    requires text != []
    ensures var n := ChunkLength(text); '\n' !in text[..n - 1]
  {
    var n, p := ChunkLength(text), Find(text, '\n');
    assert n - 1 <= p;
    assert text[..n - 1] == text[..p][..n - 1];
  }

  lemma ParsedIsClean(chunk: string)
    requires chunk != [] && '\n' !in chunk[..|chunk| - 1]
    requires ParseChunk(chunk).Some?
    ensures CleanPair(ParseChunk(chunk).value.0, ParseChunk(chunk).value.1)
  {
    var line := Stripped(UpToNul(chunk));
    var p := Find(line, '=');
    StrippedIsClean(chunk);
    assert forall c <- line[..p] :: c in line;
    assert forall c <- line[p + 1..] :: c in line;
    TrimIsClean(line[..p], {'#', '\n', NUL, '='});
    TrimIsClean(line[p + 1..], {'#', '\n', NUL});
  }

  lemma StrippedIsClean(chunk: string)
    requires chunk != [] && '\n' !in chunk[..|chunk| - 1]
    ensures NoneOf(Stripped(UpToNul(chunk)), {'#', '\n', NUL})
  {
    var s := UpToNul(chunk);
    var line := WithoutNewline(s);
    assert forall c <- line :: c in s;
    assert s != [] ==> s[..|s| - 1] <= chunk[..|chunk| - 1];
    assert forall c <- line :: c != NUL && c != '\n';
    assert Stripped(s) == line[..Find(line, '#')];
    assert forall c <- Stripped(s) :: c in line;
  }

  /** Whatever the text, everything loaded from it is clean, and bindings that are there already stay. */
  lemma {:induction false} LoadedIsClean(text: string, m: Settings)
    requires AllClean(m)
    ensures AllClean(Load(text, m))
    ensures forall k <- m :: k in Load(text, m) && Load(text, m)[k] == m[k]
    decreases |text|
  {
    if text != [] {
      var n := ChunkLength(text);
      NewlineOnlyAtEnd(text);
      assert text[..n][..n - 1] == text[..n - 1];
      if ParseChunk(text[..n]).Some? { ParsedIsClean(text[..n]); }
      LoadedIsClean(text[n..], Insert(m, ParseChunk(text[..n])));
    }
  }

  // ---------- writing and loading again ----------

  function Content(key: string, value: string): string {
    key + "=" + value
  }

  /** Whether `snprintf` cuts the pair off, and with it at least the newline. */
  predicate Cut(key: string, value: string) {
    |key| + |value| + 2 > WRITE_LIMIT
  }

  lemma {:induction false} FindConcat(a: string, b: string, c: char)
    requires c !in a
    ensures Find(a + b, c) == |a| + Find(b, c)
    decreases |a|
  {
    if a == [] {
      assert a + b == b;
    } else {
      assert (a + b)[1..] == a[1..] + b && a[0] in a;
      FindConcat(a[1..], b, c);
    }
  }

  lemma NotFound(a: string, c: char)
    requires c !in a
    ensures Find(a, c) == |a|
  {
    FindConcat(a, [], c);
    assert a + [] == a;
  }

  lemma ContentIsClean(key: string, value: string)
    requires CleanPair(key, value)
    ensures NoneOf(Content(key, value), {'#', '\n', NUL})
  {}

  lemma StrippedContent(line: string)
    requires NoneOf(line, {'#', '\n', NUL})
    ensures Stripped(UpToNul(line)) == line && Stripped(UpToNul(line + "\n")) == line
  {
    NotFound(line, '#');
    NotFound(line, NUL);
    NotFound(line + "\n", NUL);
    assert UpToNul(line) == line && UpToNul(line + "\n") == line + "\n";
    assert (line + "\n")[..|line|] == line;
  }

  /** The line of a clean pair reads as that pair, with its newline or without. */
  lemma LineReadsAsPair(key: string, value: string)
    requires CleanPair(key, value)
    ensures ParseChunk(Content(key, value)) == Some((key, value))
    ensures ParseChunk(Content(key, value) + "\n") == Some((key, value))
  {
    var line := Content(key, value);
    ContentIsClean(key, value);
    StrippedContent(line);
    assert line == key + ("=" + value);
    FindConcat(key, "=" + value, '=');
    assert line[..|key|] == key && line[|key| + 1..] == value;
    TrimOfClean(key);
    TrimOfClean(value);
  }

  lemma PrintedPairShape(key: string, value: string)
    requires CleanPair(key, value)
    ensures var s := PrintedPair(key, value);
            if Cut(key, value) then |s| == WRITE_LIMIT && '\n' !in s && s == Content(key, value)[..WRITE_LIMIT]
            else s == Content(key, value) + "\n"
  {
    ContentIsClean(key, value);
    if Cut(key, value) {
      var s := PrintedPair(key, value);
      assert s == Content(key, value)[..WRITE_LIMIT];
      assert forall c <- s :: c in Content(key, value);
    }
  }

  lemma ChunkToNewline(a: string, rest: string)
    requires '\n' !in a && |a| < READ_LIMIT
    ensures ChunkLength(a + "\n" + rest) == |a| + 1
  {
    assert a + "\n" + rest == a + ("\n" + rest);
    FindConcat(a, "\n" + rest, '\n');
  }

  lemma ChunkWithoutNewline(a: string, rest: string)
    requires '\n' !in a && |a| >= READ_LIMIT
    ensures ChunkLength(a + rest) == READ_LIMIT
  {
    FindConcat(a, rest, '\n');
  }

  lemma ChunkToEnd(a: string)
    requires '\n' !in a && |a| <= READ_LIMIT
    ensures ChunkLength(a) == |a|
  {
    NotFound(a, '\n');
  }

  lemma LoadFirst(key: string, value: string, rest: string, m: Settings)
    requires CleanPair(key, value) && !Cut(key, value)
    ensures Load(PrintedPair(key, value) + rest, m) == Load(rest, Insert(m, Some((key, value))))
  {
    var line := Content(key, value);
    PrintedPairShape(key, value);
    ContentIsClean(key, value);
    ChunkToNewline(line, rest);
    LineReadsAsPair(key, value);
    var text := line + "\n" + rest;
    assert text[..|line| + 1] == line + "\n" && text[|line| + 1..] == rest;
  }

  ghost predicate Distinct(keys: seq<string>) {
    keys == [] || (keys[0] !in keys[1..] && Distinct(keys[1..]))
  }

  /** `keys` are the keys of `m`, each once, in some order. */
  ghost predicate Enumerates(keys: seq<string>, m: Settings) {
    && (forall k <- keys :: k in m)
    && (forall k <- m :: k in keys)
    && Distinct(keys)
  }

  /** Every line but the last keeps its newline, and the last loses at most that. */
  ghost predicate Fits(keys: seq<string>, m: Settings)
    requires forall k <- keys :: k in m
  {
    forall i :: 0 <= i < |keys| ==>
                  |keys[i]| + |m[keys[i]]| + 2 <= if i < |keys| - 1 then 127 else 128
  }

  ghost function Restricted(keys: seq<string>, m: Settings): Settings
    requires forall k <- keys :: k in m
  {
    map k <- keys :: m[k]
  }

  lemma LoadLast(key: string, value: string, m: Settings)
    requires CleanPair(key, value) && |key| + |value| + 1 <= WRITE_LIMIT
    ensures Load(PrintedPair(key, value), m) == Insert(m, Some((key, value)))
  {
    var line := PrintedPair(key, value);
    PrintedPairShape(key, value);
    if Cut(key, value) {
      LineReadsAsPair(key, value);
      assert line == Content(key, value) && line[..|line|] == line;
      ChunkToEnd(line);
    } else {
      LoadFirst(key, value, [], m);
      assert line + [] == line;
    }
  }

  lemma RestrictedCons(keys: seq<string>, m: Settings, acc: Settings)
    requires keys != [] && forall k <- keys :: k in m
    requires forall l <- keys[1..] :: l in keys && l != keys[0]
    ensures acc[keys[0] := m[keys[0]]] + Restricted(keys[1..], m) == acc + Restricted(keys, m)
  {}

  lemma FitsTail(keys: seq<string>, m: Settings)
    requires |keys| > 1 && (forall k <- keys :: k in m) && (forall k <- keys[1..] :: k in m) && Fits(keys, m)
    ensures Fits(keys[1..], m) && !Cut(keys[0], m[keys[0]])
  {
    assert forall i :: 0 <= i < |keys| - 1 ==> keys[1..][i] == keys[i + 1];
  }

  /** The first of several lines, or the last one, is loaded as its pair. */
  lemma LoadHead(keys: seq<string>, m: Settings, acc: Settings)
    requires AllClean(m) && keys != [] && (forall k <- keys :: k in m) && (forall k <- keys[1..] :: k in m)
    requires Fits(keys, m)
    requires keys[0] !in acc
    ensures Load(Printed(keys, m), acc) == Load(Printed(keys[1..], m), acc[keys[0] := m[keys[0]]])
  {
    var k, later := keys[0], keys[1..];
    assert k in keys;
    if later == [] {
      LoadLast(k, m[k], acc);
      assert Printed(keys, m) == PrintedPair(k, m[k]);
    } else {
      FitsTail(keys, m);
      LoadFirst(k, m[k], Printed(later, m), acc);
    }
  }

  lemma {:induction false} FittingLoads(keys: seq<string>, m: Settings, acc: Settings)
    requires AllClean(m) && (forall k <- keys :: k in m && k !in acc) && Fits(keys, m)
    requires Distinct(keys)
    ensures Load(Printed(keys, m), acc) == acc + Restricted(keys, m)
    decreases |keys|
  {
    if keys != [] {
      assert keys[0] in keys && forall l <- keys[1..] :: l in keys && l != keys[0];
      LoadHead(keys, m, acc);
      if |keys| > 1 { FitsTail(keys, m); }
      FittingLoads(keys[1..], m, acc[keys[0] := m[keys[0]]]);
      RestrictedCons(keys, m, acc);
    }
  }

  // ---------- what does not fit ----------

  function ChunkCount(text: string): nat
    decreases |text|
  {
    if text == [] then 0 else 1 + ChunkCount(text[ChunkLength(text)..])
  }

  /** A chunk binds at most one key. */
  lemma {:induction false} LoadedSize(text: string, m: Settings)
    ensures |Load(text, m)| <= |m| + ChunkCount(text)
    decreases |text|
  {
    if text != [] {
      var n := ChunkLength(text);
      LoadedSize(text[n..], Insert(m, ParseChunk(text[..n])));
    }
  }

  lemma CountAfter(a: string, rest: string)
    requires a != [] && ChunkLength(a + rest) == |a|
    ensures ChunkCount(a + rest) == 1 + ChunkCount(rest)
  {
    assert (a + rest)[|a|..] == rest;
  }

  /** A text that starts with the unfinished line `p` needs no more chunks than it has pairs, and one for `p`. */
  lemma {:induction false} CountBound(p: string, keys: seq<string>, m: Settings)
    requires '\n' !in p && |p| < READ_LIMIT
    requires AllClean(m) && forall k <- keys :: k in m
    ensures ChunkCount(p + Printed(keys, m)) <= |keys| + if p == [] || (|p| <= WRITE_LIMIT && keys != []) then 0 else 1
    decreases |keys|
  {
    if keys == [] {
      assert p + Printed(keys, m) == p;
      ChunkToEnd(p);
    } else {
      var k, later := keys[0], keys[1..];
      var v := m[k];
      assert k in keys && forall l <- later :: l in keys;
      var line, rest := PrintedPair(k, v), Printed(later, m);
      var q := p + line;
      assert p + Printed(keys, m) == q + rest;
      PrintedPairShape(k, v);
      if Cut(k, v) {
        if |q| < READ_LIMIT {
          CountBound(q, later, m);
        } else {
          ChunkWithoutNewline(q, rest);
          CountSplit(q, rest);
          CountBound(q[READ_LIMIT..], later, m);
        }
      } else {
        CountBound([], later, m);
        assert [] + rest == rest;
        CountWholeLine(p, k, v, rest);
      }
    }
  }

  lemma CountSplit(q: string, rest: string)
    requires |q| >= READ_LIMIT && ChunkLength(q + rest) == READ_LIMIT
    ensures ChunkCount(q + rest) == 1 + ChunkCount(q[READ_LIMIT..] + rest)
  {
    assert (q + rest)[READ_LIMIT..] == q[READ_LIMIT..] + rest;
  }

  /** A line of less than twice the buffer takes one chunk, or two. */
  lemma CountLine(a: string, rest: string)
    requires '\n' !in a && |a| < 2 * READ_LIMIT
    ensures ChunkCount(a + "\n" + rest) == (if |a| < READ_LIMIT then 1 else 2) + ChunkCount(rest)
  {
    if |a| < READ_LIMIT {
      ChunkToNewline(a, rest);
      CountAfter(a + "\n", rest);
    } else {
      var b := a[READ_LIMIT..];
      assert a + "\n" + rest == a + ("\n" + rest);
      ChunkWithoutNewline(a, "\n" + rest);
      CountSplit(a, "\n" + rest);
      assert b + ("\n" + rest) == b + "\n" + rest;
      ChunkToNewline(b, rest);
      CountAfter(b + "\n", rest);
    }
  }

  /** A line that is not cut off ends what is in front of it. */
  lemma CountWholeLine(p: string, key: string, value: string, rest: string)
    requires '\n' !in p && |p| < READ_LIMIT && CleanPair(key, value) && !Cut(key, value)
    ensures ChunkCount((p + PrintedPair(key, value)) + rest)
            == (if |p| + |Content(key, value)| < READ_LIMIT then 1 else 2) + ChunkCount(rest)
  {
    var a := p + Content(key, value);
    ContentIsClean(key, value);
    PrintedPairShape(key, value);
    CountLine(a, rest);
    assert p + PrintedPair(key, value) == a + "\n";
  }

  /** A pair that is cut off before the last line runs into the next one, and a chunk is missing. */
  lemma {:induction false} CutLosesChunk(keys: seq<string>, m: Settings, i: nat)
    requires AllClean(m) && forall k <- keys :: k in m
    requires i < |keys| - 1 && Cut(keys[i], m[keys[i]])
    ensures ChunkCount(Printed(keys, m)) < |keys|
    decreases |keys|
  {
    var k, later := keys[0], keys[1..];
    assert k in keys && forall l <- later :: l in keys;
    PrintedPairShape(k, m[k]);
    if Cut(k, m[k]) {
      CountBound(PrintedPair(k, m[k]), later, m);
    } else {
      ContentIsClean(k, m[k]);
      CountLine(Content(k, m[k]), Printed(later, m));
      CutLosesChunk(later, m, i - 1);
    }
  }

  lemma PairFitsChunk(chunk: string)
    requires ParseChunk(chunk).Some?
    ensures var (k, v) := ParseChunk(chunk).value; |k| + |v| + 1 <= |chunk|
  {
    var line := Stripped(UpToNul(chunk));
    var p := Find(line, '=');
    TrimLeftIsSuffix(line[..p]);
    TrimRightIsPrefix(TrimLeft(line[..p]));
    TrimLeftIsSuffix(line[p + 1..]);
    TrimRightIsPrefix(TrimLeft(line[p + 1..]));
  }

  lemma LongLineLosesPair(key: string, value: string, m: Settings)
    requires CleanPair(key, value) && |key| + |value| + 1 > WRITE_LIMIT && key !in m
    ensures var m' := Load(PrintedPair(key, value), m); key in m' ==> m'[key] != value
  {
    var line := PrintedPair(key, value);
    PrintedPairShape(key, value);
    assert line[..|line|] == line;
    ChunkToEnd(line);
    if ParseChunk(line).Some? { PairFitsChunk(line); }
  }

  /** A last line that is cut off by more than its newline does not read as its pair. */
  lemma {:induction false} CutLosesLast(keys: seq<string>, m: Settings, acc: Settings)
    requires AllClean(m) && keys != [] && (forall k <- keys :: k in m && k !in acc)
    requires Distinct(keys)
    requires forall i :: 0 <= i < |keys| - 1 ==> !Cut(keys[i], m[keys[i]])
    requires var last := keys[|keys| - 1]; |last| + |m[last]| + 1 > WRITE_LIMIT
    ensures Load(Printed(keys, m), acc) != m
    decreases |keys|
  {
    var k, later := keys[0], keys[1..];
    assert k in keys && (forall l <- later :: l in keys && l != k);
    if later == [] {
      assert Printed(keys, m) == PrintedPair(k, m[k]);
      LongLineLosesPair(k, m[k], acc);
    } else {
      assert later[|later| - 1] == keys[|keys| - 1];
      assert forall i :: 0 <= i < |later| ==> later[i] == keys[i + 1];
      LoadFirst(k, m[k], Printed(later, m), acc);
      CutLosesLast(later, m, acc[k := m[k]]);
    }
  }

  ghost function KeySet(keys: seq<string>): set<string> {
    set k <- keys
  }

  lemma EnumerationSize(keys: seq<string>, m: Settings)
    requires Enumerates(keys, m)
    ensures |keys| == |m|
  {
    assert m.Keys == KeySet(keys);
    DistinctSize(keys);
  }

  lemma {:induction false} DistinctSize(keys: seq<string>)
    requires Distinct(keys)
    ensures |KeySet(keys)| == |keys|
    decreases |keys|
  {
    if keys != [] {
      DistinctSize(keys[1..]);
      assert KeySet(keys) == {keys[0]} + KeySet(keys[1..]);
    }
  }

  /** Writing a clean configuration in any order and loading it again gives it back if and only if it fits: every line
      but the last within 127 characters with its newline, and the last without. */
  lemma StableIff(keys: seq<string>, m: Settings)
    requires AllClean(m) && Enumerates(keys, m)
    ensures Load(Printed(keys, m), map[]) == m <==> Fits(keys, m)
  {
    if Fits(keys, m) {
      FittingLoads(keys, m, map[]);
      RestrictedIsAll(keys, m);
    } else {
      NotFittingIsUnstable(keys, m);
    }
  }

  lemma RestrictedIsAll(keys: seq<string>, m: Settings)
    requires Enumerates(keys, m)
    ensures map[] + Restricted(keys, m) == m
  {}

  lemma NotFittingIsUnstable(keys: seq<string>, m: Settings)
    requires AllClean(m) && Enumerates(keys, m) && !Fits(keys, m)
    ensures Load(Printed(keys, m), map[]) != m
  {
    if i :| 0 <= i < |keys| - 1 && Cut(keys[i], m[keys[i]]) {
      CutLosesChunk(keys, m, i);
      LoadedSize(Printed(keys, m), map[]);
      EnumerationSize(keys, m);
    } else {
      CutLosesLast(keys, m, map[]);
    }
  }

  /** Loading any text, writing what was loaded and loading that gives the same settings if and only if they fit. */
  lemma ReloadIff(text: string, keys: seq<string>)
    requires Enumerates(keys, Load(text, map[]))
    ensures var m := Load(text, map[]); Load(Printed(keys, m), map[]) == m <==> Fits(keys, m)
  {
    LoadedIsClean(text, map[]);
    StableIff(keys, Load(text, map[]));
  }

  // ---------- what a line means ----------

  /** Blanks, tabs and carriage returns. */
  ghost predicate Padding(s: string) {
    forall c <- s :: c == ' ' || c == '\t' || c == '\r'
  }

  lemma LineIsStripped(line: string, tail: string)
    requires NoneOf(line, {'#', '\n', NUL}) && NoneOf(tail, {'\n', NUL}) && (tail != [] ==> tail[0] == '#')
    ensures Stripped(UpToNul(line + tail)) == line && Stripped(UpToNul(line + tail + "\n")) == line
  {
    var s := line + tail;
    NotFound(s, NUL);
    NotFound(s + "\n", NUL);
    assert UpToNul(s) == s && UpToNul(s + "\n") == s + "\n";
    assert s != [] ==> s[|s| - 1] in s;
    assert WithoutNewline(s) == s && WithoutNewline(s + "\n") == s;
    FindConcat(line, tail, '#');
    assert Find(tail, '#') == 0;
    assert s[..|line|] == line;
  }

  /** A comment, from the first '#' on, and a newline do not change what a line means. */
  lemma CommentIsDropped(line: string, comment: string)
    requires NoneOf(line, {'#', '\n', NUL}) && NoneOf(comment, {'\n', NUL})
    ensures ParseChunk(line + ("#" + comment)) == ParseChunk(line)
    ensures ParseChunk(line + ("#" + comment) + "\n") == ParseChunk(line)
    ensures ParseChunk(line + "\n") == ParseChunk(line)
  {
    LineIsStripped(line, "#" + comment);
    LineIsStripped(line, []);
    assert line + [] == line;
  }

  /** Nor does what follows a NUL. */
  lemma NulEndsLine(chunk: string, rest: string)
    requires NUL !in chunk
    ensures ParseChunk(chunk + ([NUL] + rest)) == ParseChunk(chunk)
  {
    FindConcat(chunk, [NUL] + rest, NUL);
    NotFound(chunk, NUL);
    assert (chunk + ([NUL] + rest))[..|chunk|] == chunk == chunk[..|chunk|];
  }

  lemma PaddedIsTrimmed(before: string, s: string, after: string)
    requires Padding(before) && Padding(after) && s != [] && !Padding([s[0]]) && !Padding([s[|s| - 1]])
    ensures Trim(before + s + after) == s
  {
    var t := before + s + after;
    assert s[0] in [s[0]] && s[|s| - 1] in [s[|s| - 1]];
    assert t[|before|] == s[0] && t[|before| + |s| - 1] == s[|s| - 1];
    forall k | 0 <= k < |before| ensures Blank(t[k]) { assert t[k] == before[k] && before[k] in before; }
    forall k | |before| + |s| <= k < |t| ensures Blank(t[k]) {
      assert t[k] == after[k - |before| - |s|] && after[k - |before| - |s|] in after;
    }
    TrimIs(t, |before|, |before| + |s|);
  }

  lemma CleanIsNotPadding(s: string)
    requires Clean(s)
    ensures !Padding([s[0]]) && !Padding([s[|s| - 1]])
  {
    assert s[0] in [s[0]] && s[|s| - 1] in [s[|s| - 1]];
  }

  lemma SplitLineIs(left: string, right: string)
    requires NoneOf(left, {'#', '\n', NUL, '='}) && NoneOf(right, {'#', '\n', NUL})
    ensures ParseChunk(left + ("=" + right)) == PairOf(left, right)
  {
    var line := left + ("=" + right);
    assert forall c <- line :: c in left || c == '=' || c in right;
    LineIsStripped(line, []);
    assert line + [] == line;
    FindConcat(left, "=" + right, '=');
    assert Find("=" + right, '=') == 0;
    assert line[..|left|] == left && line[|left| + 1..] == right;
  }

  /** Key and value of a line come out whatever padding is around them, with a comment behind them or without. */
  lemma PaddedLineIsRead(key: string, value: string, pads: (string, string, string, string), comment: string)
    requires CleanPair(key, value) && Padding(pads.0) && Padding(pads.1) && Padding(pads.2) && Padding(pads.3)
    requires NoneOf(comment, {'\n', NUL})
    ensures var line := (pads.0 + key + pads.1) + ("=" + (pads.2 + value + pads.3));
            && ParseChunk(line) == Some((key, value))
            && ParseChunk(line + ("#" + comment) + "\n") == Some((key, value))
  {
    var left, right := pads.0 + key + pads.1, pads.2 + value + pads.3;
    SplitLineIs(left, right);
    CleanIsNotPadding(key);
    CleanIsNotPadding(value);
    PaddedIsTrimmed(pads.0, key, pads.1);
    PaddedIsTrimmed(pads.2, value, pads.3);
    CommentIsDropped(left + ("=" + right), comment);
  }

  /** A line has no pair if there is no equals sign in it, and otherwise if and only if there is nothing but padding on
      one side of the first one. */
  lemma NoPairIff(left: string, right: string)
    requires NoneOf(left, {'#', '\n', NUL, '='}) && NoneOf(right, {'#', '\n', NUL})
    ensures ParseChunk(left).None?
    ensures ParseChunk(left + ("=" + right)).None? <==> Padding(left) || Padding(right)
  {
    LineIsStripped(left, []);
    assert left + [] == left;
    NotFound(left, '=');
    SplitLineIs(left, right);
    TrimIsEmptyIff(left);
    TrimIsEmptyIff(right);
    AllBlankIsPadding(left);
    AllBlankIsPadding(right);
  }

  lemma AllBlankIsPadding(s: string)
    ensures AllBlank(s, 0, |s|) <==> Padding(s)
  {
    assert forall k :: 0 <= k < |s| ==> s[k] in s;
  }

  /** A line of less than 255 characters is one chunk; a longer one is cut after 255. */
  lemma LoadsByLines(line: string, rest: string, m: Settings)
    requires '\n' !in line && |line| <= 255
    ensures |line| < 255 ==> Load(line + "\n" + rest, m) == Load(rest, Insert(m, ParseChunk(line + "\n")))
    ensures |line| == 255 ==> Load(line + rest, m) == Load(rest, Insert(m, ParseChunk(line)))
  {
    if |line| < 255 {
      ChunkToNewline(line, rest);
      var text := line + "\n" + rest;
      assert text[..|line| + 1] == line + "\n" && text[|line| + 1..] == rest;
    } else {
      ChunkWithoutNewline(line, rest);
      assert (line + rest)[..255] == line && (line + rest)[255..] == rest;
    }
  }

  // ---------- the object, with C strings in a line buffer ----------

  /** The length of the C string at `at`. */
  function StrLen(mem: seq<char>, at: nat): (n: nat)
    requires at < |mem| && mem[|mem| - 1] == NUL
    ensures at + n < |mem| && mem[at + n] == NUL && NUL !in mem[at..at + n]
    decreases |mem| - at
  {
    if mem[at] == NUL then 0 else 1 + StrLen(mem, at + 1)
  }

  function CStr(mem: seq<char>, at: nat): (s: string)
    requires at < |mem| && mem[|mem| - 1] == NUL
    ensures NUL !in s
  {
    mem[at..at + StrLen(mem, at)]
  }

  /** The C string at `at` is what stands there up to the first NUL. */
  lemma {:induction false} CStrIs(mem: seq<char>, at: nat, n: nat)
    requires at + n < |mem| && mem[|mem| - 1] == NUL && mem[at + n] == NUL && NUL !in mem[at..at + n]
    ensures CStr(mem, at) == mem[at..at + n]
    decreases n
  {
    if n > 0 {
      assert mem[at] in mem[at..at + n];
      assert mem[at + 1..at + n] == mem[at..at + n][1..];
      CStrIs(mem, at + 1, n - 1);
    }
  }

  lemma {:induction false} TrimLeftSkips(s: string, i: nat)
    requires i <= |s| && (forall k :: 0 <= k < i ==> Blank(s[k])) && (i < |s| ==> !Blank(s[i]))
    ensures TrimLeft(s) == s[i..]
    decreases |s|
  {
    if i > 0 {
      TrimLeftSkips(s[1..], i - 1);
      assert s[1..][i - 1..] == s[i..];
    }
  }

  lemma {:induction false} TrimRightCuts(s: string, n: nat)
    requires n <= |s| && (forall k :: n <= k < |s| ==> Blank(s[k])) && (n > 0 ==> !Blank(s[n - 1]))
    ensures TrimRight(s) == s[..n]
    decreases |s|
  {
    if n < |s| {
      var t := s[..|s| - 1];
      TrimRightCuts(t, n);
      assert t[..n] == s[..n];
    }
  }

  lemma {:induction false} FindIs(s: string, c: char, n: nat)
    requires n <= |s| && (n < |s| ==> s[n] == c) && forall k :: 0 <= k < n ==> s[k] != c
    ensures Find(s, c) == n
    decreases n
  {
    if n > 0 {
      FindIs(s[1..], c, n - 1);
    }
  }

  lemma CStrChars(mem: seq<char>, at: nat)
    requires at < |mem| && mem[|mem| - 1] == NUL
    ensures var n := |CStr(mem, at)|;
            at + n < |mem| && mem[at + n] == NUL
            && forall k :: at <= k < at + n ==> mem[k] == CStr(mem, at)[k - at] && mem[k] != NUL
  {
    var s := CStr(mem, at);
    forall k | at <= k < at + |s| ensures mem[k] == s[k - at] && mem[k] != NUL {
      assert s[k - at] in s;
    }
  }

  /** `strchr`: the index of the first `c` of the C string at `at`. */
  method StrChr(mem: array<char>, at: nat, c: char) returns (r: Option<nat>)
    requires at < mem.Length && mem[mem.Length - 1] == NUL && c != NUL
    ensures var s := CStr(mem[..], at); var n := Find(s, c);
            if n == |s| then r == None else r == Some(at + n)
  {
    var i := at;
    ghost var s := CStr(mem[..], at);
    CStrChars(mem[..], at);
    while mem[i] != NUL && mem[i] != c
      invariant at <= i <= at + |s| < mem.Length
      invariant forall k :: at <= k < i ==> mem[k] != c
      decreases mem.Length - i
    {
      i := i + 1;
    }
    FindIs(s, c, i - at);
    r := if mem[i] == NUL then None else Some(i);
  }

  method StrEnd(mem: array<char>, at: nat) returns (end: nat)
    requires at < mem.Length && mem[mem.Length - 1] == NUL
    ensures end == at + |CStr(mem[..], at)|
  {
    end := at;
    CStrChars(mem[..], at);
    while mem[end] != NUL
      invariant at <= end <= at + |CStr(mem[..], at)| < mem.Length
      decreases mem.Length - end
    {
      end := end + 1;
    }
  }

  /** The forward loop of `TrimSpace`. */
  method SkipBlanks(mem: array<char>, name: nat) returns (start: nat)
    requires name < mem.Length && mem[mem.Length - 1] == NUL
    ensures name <= start < mem.Length && !Blank(mem[start])
    ensures forall k :: name <= k < start ==> Blank(mem[k])
  {
    start := name;
    while Blank(mem[start])
      invariant name <= start < mem.Length
      invariant forall k :: name <= k < start ==> Blank(mem[k])
      decreases mem.Length - start
    {
      start := start + 1;
    }
  }

  // ---------- TrimSpace, in memory ----------

  ghost predicate AllBlank(mem: seq<char>, from: nat, to: nat)
    requires to <= |mem|
  {
    forall k :: from <= k < to ==> Blank(mem[k])
  }

  /** A backward loop over blanks from `end` on stops inside `mem`. */
  ghost predicate Anchored(mem: seq<char>, end: nat)
    requires end <= |mem|
  {
    exists k :: 0 <= k < end && !Blank(mem[k])
  }

  /** The memory after the backward loop of `TrimSpace`, which overwrites the blanks in front of `end` with NULs. */
  function CutBack(mem: seq<char>, end: nat): (r: seq<char>)
    requires end <= |mem|
    ensures |r| == |mem|
    decreases end
  {
    if 0 < end && Blank(mem[end - 1]) then CutBack(mem[end - 1 := NUL], end - 1) else mem
  }

  lemma {:induction false} CutBackAt(mem: seq<char>, end: nat, k: nat)
    requires end <= |mem| && k < |mem|
    ensures CutBack(mem, end)[k] == if k < end && AllBlank(mem, k, end) then NUL else mem[k]
    decreases end
  {
    if 0 < end && Blank(mem[end - 1]) {
      var next := mem[end - 1 := NUL];
      CutBackAt(next, end - 1, k);
      assert forall j :: 0 <= j < end - 1 ==> next[j] == mem[j];
      if k < end - 1 {
        assert AllBlank(next, k, end - 1) <==> AllBlank(mem, k, end);
      }
    }
  }

  /** What the loop does in front of `base`. */
  lemma CutBackFront(mem: seq<char>, base: nat, end: nat)
    requires base <= end <= |mem|
    ensures CutBack(mem, end)[..base]
            == if AllBlank(mem, base, end) then CutBack(mem[..base], base) else mem[..base]
  {
    forall k | 0 <= k < base
      ensures CutBack(mem, end)[k] == if AllBlank(mem, base, end) then CutBack(mem[..base], base)[k] else mem[k]
    {
      CutBackAt(mem, end, k);
      CutBackAt(mem[..base], base, k);
      if AllBlank(mem, base, end) {
        assert AllBlank(mem, k, end) <==> AllBlank(mem[..base], k, base);
      } else {
        assert !AllBlank(mem, k, end);
      }
    }
  }

  lemma AnchoredBehind(mem: seq<char>, end: nat, later: nat)
    requires end <= later <= |mem| && Anchored(mem, end)
    ensures Anchored(mem, later)
  {}

  lemma StaysAnchored(mem: seq<char>, end: nat)
    requires end <= |mem| && Anchored(mem, end)
    ensures Anchored(CutBack(mem, end), end)
  {
    var k :| 0 <= k < end && !Blank(mem[k]);
    CutBackAt(mem, end, k);
    assert !Blank(CutBack(mem, end)[k]);
  }

  lemma TrimIsEmptyIff(s: string)
    ensures Trim(s) == [] <==> AllBlank(s, 0, |s|)
  {
    var t := TrimLeft(s);
    TrimLeftIsSuffix(s);
    TrimRightIsPrefix(t);
    if AllBlank(s, 0, |s|) {
      TrimLeftSkips(s, |s|);
    } else {
      var k :| 0 <= k < |s| && !Blank(s[k]);
      if t == [] { TrimLeftAllBlank(s); }
      if t != [] { TrimRightKeepsFirst(t); }
    }
  }

  lemma {:induction false} TrimLeftAllBlank(s: string)
    requires TrimLeft(s) == []
    ensures AllBlank(s, 0, |s|)
    decreases |s|
  {
    if s != [] {
      TrimLeftAllBlank(s[1..]);
      assert forall k :: 1 <= k < |s| ==> s[k] == s[1..][k - 1];
    }
  }

  lemma {:induction false} TrimRightKeepsFirst(s: string)
    requires s != [] && !Blank(s[0])
    ensures TrimRight(s) != []
    decreases |s|
  {
    if Blank(s[|s| - 1]) { TrimRightKeepsFirst(s[..|s| - 1]); }
  }

  lemma BlankCStrIff(mem: seq<char>, name: nat)
    requires name < |mem| && mem[|mem| - 1] == NUL
    ensures Trim(CStr(mem, name)) == [] <==> AllBlank(mem, name, name + |CStr(mem, name)|)
  {
    var s := CStr(mem, name);
    TrimIsEmptyIff(s);
    assert forall k :: name <= k < name + |s| ==> mem[k] == s[k - name];
    assert forall k :: 0 <= k < |s| ==> s[k] == mem[name + k];
  }

  ghost predicate SameOutside(mem: seq<char>, mem': seq<char>, from: nat, to: nat)
    requires |mem'| == |mem|
  {
    forall k :: 0 <= k < |mem| && !(from <= k < to) ==> mem'[k] == mem[k]
  }

  /** `TrimSpace` leaves everything outside its string alone if and only if the string is not blank or there is no blank
      in front of it. */
  lemma TrimStaysInsideIff(mem: seq<char>, name: nat)
    requires 0 < name < |mem| && mem[|mem| - 1] == NUL
    ensures var s := CStr(mem, name);
            SameOutside(mem, CutBack(mem, name + |s|), name, name + |s|) <==> Trim(s) != [] || !Blank(mem[name - 1])
  {
    var stop := name + |CStr(mem, name)|;
    BlankCStrIff(mem, name);
    forall k | 0 <= k < |mem|
      ensures CutBack(mem, stop)[k] == if k < stop && AllBlank(mem, k, stop) then NUL else mem[k]
    {
      CutBackAt(mem, stop, k);
    }
    if Trim(CStr(mem, name)) == [] && Blank(mem[name - 1]) {
      assert AllBlank(mem, name - 1, stop) && CutBack(mem, stop)[name - 1] == NUL;
    }
  }

  /** The key of the line " =v" is blank.  With "x " in front of the line buffer, trimming it overwrites that blank. */
  lemma BlankKeyRunsOut()
    ensures var mem := ['x', ' ', ' ', NUL, 'v', NUL];
            CStr(mem, 2) == " " && CutBack(mem, 3) == ['x', NUL, NUL, NUL, 'v', NUL]
  {
    var mem := ['x', ' ', ' ', NUL, 'v', NUL];
    assert mem[2..3] == " ";
    CStrIs(mem, 2, 1);
    var once := ['x', ' ', NUL, NUL, 'v', NUL];
    var twice := ['x', NUL, NUL, NUL, 'v', NUL];
    assert mem[2 := NUL] == once && once[1 := NUL] == twice;
    assert CutBack(twice, 1) == twice && CutBack(once, 2) == twice;
  }

  method CutBlanks(mem: array<char>, stop: nat) returns (end: int)
    requires stop <= mem.Length && Anchored(mem[..], stop)
    modifies mem
    ensures 0 <= end < stop && !Blank(old(mem[end])) && AllBlank(old(mem[..]), end + 1, stop)
    ensures mem[..] == CutBack(old(mem[..]), stop)
  {
    end := stop - 1;
    while Blank(mem[end])
      invariant 0 <= end < stop && Anchored(mem[..], end + 1)
      invariant forall k :: 0 <= k <= end ==> mem[k] == old(mem[k])
      invariant AllBlank(old(mem[..]), end + 1, stop)
      invariant CutBack(mem[..], end + 1) == CutBack(old(mem[..]), stop)
      decreases end
    {
      ghost var before := mem[..];
      mem[end] := NUL;
      assert mem[..] == before[end := NUL];
      assert exists k :: 0 <= k < end && !Blank(before[k]);
      end := end - 1;
      assert forall k :: 0 <= k <= end ==> mem[..][k] == before[k];
    }
  }

  /** What the two loops of `TrimSpace` on the C string at `name` come to: `start` and `end` are its first and last
      non-blank, if it has any. */
  lemma TrimmedInPlace(mem: seq<char>, name: nat, start: nat, end: nat)
    requires 0 < name < |mem| && mem[|mem| - 1] == NUL
    requires var stop := name + |CStr(mem, name)|;
             && name <= start <= stop && end < stop
             && AllBlank(mem, name, start) && !Blank(mem[start])
             && AllBlank(mem, end + 1, stop) && !Blank(mem[end])
    ensures var mem' := CutBack(mem, name + |CStr(mem, name)|);
            && mem'[|mem'| - 1] == NUL
            && (end < start <==> Trim(CStr(mem, name)) == [])
            && (start <= end ==> CStr(mem', start) == Trim(CStr(mem, name)))
            && (SameOutside(mem, mem', name, name + |CStr(mem, name)|)
                <==> Trim(CStr(mem, name)) != [] || !Blank(mem[name - 1]))
  {
    TrimStaysInsideIff(mem, name);
    var s := CStr(mem, name);
    var stop := name + |s|;
    var mem' := CutBack(mem, stop);
    CStrChars(mem, name);
    CutBackAt(mem, stop, |mem| - 1);
    if start <= end {
      var i, j := start - name, end + 1 - name;
      assert s[i] == mem[start] && s[j - 1] == mem[end];
      TrimIs(s, i, j);
      CutString(mem, stop, start, end);
      assert s == mem[name..stop] && s[i..j] == mem[start..end + 1];
      CStrIs(mem', start, end + 1 - start);
    } else {
      BlankCStrIff(mem, name);
    }
  }

  lemma TrimIs(s: string, i: nat, j: nat)
    requires i < j <= |s| && AllBlank(s, 0, i) && AllBlank(s, j, |s|) && !Blank(s[i]) && !Blank(s[j - 1])
    ensures Trim(s) == s[i..j] != []
  {
    TrimLeftSkips(s, i);
    TrimRightCuts(s[i..], j - i);
    assert s[i..][..j - i] == s[i..j];
  }

  /** Cutting leaves the string from `start` to `end` in place and ends it there. */
  lemma CutString(mem: seq<char>, stop: nat, start: nat, end: nat)
    requires start <= end < stop < |mem| && mem[stop] == NUL
    requires AllBlank(mem, end + 1, stop) && !Blank(mem[end])
    ensures var mem' := CutBack(mem, stop); mem'[start..end + 1] == mem[start..end + 1] && mem'[end + 1] == NUL
  {
    forall k | start <= k <= end ensures CutBack(mem, stop)[k] == mem[k] {
      CutBackAt(mem, stop, k);
    }
    CutBackAt(mem, stop, end + 1);
  }

  /** `TrimSpace` on the C string at `name`, in place.  The backward loop of a blank string runs on into what stands in
      front of it, as far as that is blank. */
  method TrimSpace(mem: array<char>, name: nat) returns (r: Option<nat>)
    requires 0 < name < mem.Length && mem[mem.Length - 1] == NUL && Anchored(mem[..], name)
    modifies mem
    ensures mem[mem.Length - 1] == NUL
    ensures mem[..] == CutBack(old(mem[..]), name + |old(CStr(mem[..], name))|)
    ensures var s := old(CStr(mem[..], name));
            && (r.None? <==> Trim(s) == [])
            && (r.Some? ==> name <= r.value < name + |s| && CStr(mem[..], r.value) == Trim(s))
            && (SameOutside(old(mem[..]), mem[..], name, name + |s|) <==> Trim(s) != [] || !Blank(old(mem[name - 1])))
  {
    ghost var before, s := mem[..], CStr(mem[..], name);
    var start := SkipBlanks(mem, name);
    var stop := StrEnd(mem, name);
    assert AllBlank(before, name, start) && before[stop] == NUL;
    AnchoredBehind(before, name, stop);
    var end := CutBlanks(mem, stop);
    ghost var after := mem[..];
    assert after == CutBack(before, name + |s|);
    TrimmedInPlace(before, name, start, end);
    r := if end - start + 1 <= 0 then None else Some(start);
  }

  /** What trimming a key leaves of the memory `front` in front of it. */
  function FrontAfter(front: seq<char>, key: string): seq<char> {
    if Trim(key) == [] then CutBack(front, |front|) else front
  }

  /** What parsing a line leaves of the memory in front of it. */
  function FrontAfterLine(front: seq<char>, line: string): seq<char> {
    var p := Find(line, '=');
    if p < |line| then FrontAfter(front, line[..p]) else front
  }

  lemma ParseLineAt(s: string, n: nat, front: seq<char>)
    requires n == Find(s, '=') < |s|
    ensures ParseLine(s) == PairOf(s[..n], s[n + 1..])
    ensures FrontAfterLine(front, s) == FrontAfter(front, s[..n])
  {}

  class ConfigFileReader {
    var hasLoad: bool
    var configMap: Settings

    constructor ()
      ensures !hasLoad && configMap == map[]
    {
      hasLoad, configMap := false, map[];
    }

    /** `line` is memory with the line buffer from index `base` on. */
    method ParseLineInPlace(line: array<char>, base: nat)
      requires 0 < base < line.Length && line[line.Length - 1] == NUL && Anchored(line[..base], base)
      modifies line, this`configMap
      ensures line[line.Length - 1] == NUL
      ensures configMap == Insert(old(configMap), ParseLine(old(CStr(line[..], base))))
      ensures line[..base] == FrontAfterLine(old(line[..base]), old(CStr(line[..], base)))
    {
      ghost var s, front := CStr(line[..], base), line[..base];
      var p := StrChr(line, base, '=');
      if p.Some? {
        ghost var n := p.value - base;
        ParseLineAt(s, n, front);
        SplitLine(line, base, p.value, s);
        InsertSplit(line, base, p.value, front, s[..n], s[n + 1..]);
      }
    }

    /** Ends the key with a NUL in place of the equals sign. */
    method SplitLine(line: array<char>, base: nat, eq: nat, ghost s: string)
      requires base < line.Length && line[line.Length - 1] == NUL && CStr(line[..], base) == s
      requires base <= eq && eq - base == Find(s, '=') < |s|
      modifies line
      ensures eq + 1 < line.Length && line[line.Length - 1] == NUL && line[eq] == NUL
      ensures line[..base] == old(line[..base])
      ensures CStr(line[..], base) == s[..eq - base] && CStr(line[..], eq + 1) == s[eq - base + 1..]
    {
      ghost var mem := line[..];
      CStrChars(mem, base);
      line[eq] := NUL;
      SplitAtEquals(mem, line[..], base, eq);
    }

    /** Trims the two parts of a split line, `left` and `right`, and inserts them. */
    method InsertSplit(line: array<char>, base: nat, eq: nat,
                       ghost front: seq<char>, ghost left: string, ghost right: string)
      requires 0 < base <= eq && eq + 1 < line.Length && line[line.Length - 1] == NUL && line[eq] == NUL
      requires line[..base] == front && Anchored(front, base)
      requires CStr(line[..], base) == left && |left| == eq - base && CStr(line[..], eq + 1) == right
      modifies line, this`configMap
      ensures line[line.Length - 1] == NUL && line[..base] == FrontAfter(front, left)
      ensures configMap == Insert(old(configMap), PairOf(left, right))
    {
      var key, value := TrimBoth(line, base, eq, front, left, right);
      if key.Some? && value.Some? {
        var k, v := CStr(line[..], key.value), CStr(line[..], value.value);
        assert PairOf(left, right) == Some((k, v));
        configMap := Insert(configMap, Some((k, v)));
      } else {
        assert PairOf(left, right) == None;
      }
    }

    method TrimBoth(line: array<char>, base: nat, eq: nat,
                    ghost front: seq<char>, ghost left: string, ghost right: string)
      returns (key: Option<nat>, value: Option<nat>)
      requires 0 < base <= eq && eq + 1 < line.Length && line[line.Length - 1] == NUL && line[eq] == NUL
      requires line[..base] == front && Anchored(front, base)
      requires CStr(line[..], base) == left && |left| == eq - base && CStr(line[..], eq + 1) == right
      modifies line
      ensures line[line.Length - 1] == NUL && line[..base] == FrontAfter(front, left)
      ensures key.None? <==> Trim(left) == []
      ensures key.Some? ==> key.value < line.Length && CStr(line[..], key.value) == Trim(left)
      ensures value.None? <==> Trim(right) == []
      ensures value.Some? ==> value.value < line.Length && CStr(line[..], value.value) == Trim(right)
    {
      key := TrimKey(line, base, eq, front, left);
      value := TrimValue(line, eq, if key.Some? then key.value else 0);
      assert line[..base] == line[..eq][..base];
    }

    /** Trims the key in front of the NUL at `eq`. */
    method TrimKey(line: array<char>, base: nat, eq: nat, ghost front: seq<char>, ghost left: string)
      returns (key: Option<nat>)
      requires 0 < base <= eq && eq + 1 < line.Length && line[line.Length - 1] == NUL && line[eq] == NUL
      requires line[..base] == front && Anchored(front, base)
      requires CStr(line[..], base) == left && |left| == eq - base
      modifies line
      ensures line[line.Length - 1] == NUL && line[eq] == NUL && line[..base] == FrontAfter(front, left)
      ensures key.None? <==> Trim(left) == []
      ensures key.Some? ==> key.value <= eq && CStr(line[..], key.value) == Trim(left)
      ensures CStr(line[..], eq + 1) == old(CStr(line[..], eq + 1))
    {
      ghost var mem := line[..];
      AnchoredFront(mem, base);
      KeyIsCutBack(mem, base, eq);
      assert base + |left| == eq;
      key := TrimSpace(line, base);
      ghost var mem' := line[..];
      assert mem' == CutBack(mem, eq);
    }

    /** Trims the value behind the NUL at `eq`, which leaves a string `at` in front of it as it is. */
    method TrimValue(line: array<char>, eq: nat, ghost at: nat) returns (value: Option<nat>)
      requires 0 < eq && eq + 1 < line.Length && line[line.Length - 1] == NUL && line[eq] == NUL && at <= eq
      modifies line
      ensures line[line.Length - 1] == NUL && line[..eq] == old(line[..eq])
      ensures var s := old(CStr(line[..], eq + 1));
              && (value.None? <==> Trim(s) == [])
              && (value.Some? ==> value.value < line.Length && CStr(line[..], value.value) == Trim(s))
      ensures CStr(line[..], at) == old(CStr(line[..], at))
    {
      ghost var mem := line[..];
      assert !Blank(mem[eq]);
      value := TrimSpace(line, eq + 1);
      assert forall k :: 0 <= k <= eq ==> line[k] == mem[k];
      SameCStrBefore(mem, line[..], at, eq);
    }

    /** `fgets` into the line buffer. */
    method ReadChunk(line: array<char>, base: nat, text: string) returns (n: nat)
      requires line.Length == base + READ_LIMIT + 1 && line[line.Length - 1] == NUL && text != []
      modifies line
      ensures n == ChunkLength(text) && line[line.Length - 1] == NUL && line[..base] == old(line[..base])
      ensures CStr(line[..], base) == UpToNul(text[..n])
    {
      n := ChunkLength(text);
      var i := 0;
      while i < n
        invariant i <= n <= READ_LIMIT && line[line.Length - 1] == NUL && line[..base] == old(line[..base])
        invariant forall k :: 0 <= k < i ==> line[base + k] == text[k]
      {
        line[base + i] := text[i];
        i := i + 1;
      }
      line[base + n] := NUL;
      assert line[..][base..base + n] == text[..n];
      ReadBack(line[..], base, text[..n]);
    }

    /** Overwrites the newline; of an empty string the byte in front is looked at. */
    method DropNewline(line: array<char>, base: nat)
      requires 0 < base < line.Length && line[line.Length - 1] == NUL
      modifies line
      ensures line[line.Length - 1] == NUL
      ensures CStr(line[..], base) == WithoutNewline(old(CStr(line[..], base)))
      ensures forall k :: 0 <= k < base ==> line[k] == old(line[k]) || (old(line[k]) == '\n' && line[k] == NUL)
    {
      ghost var mem, s := line[..], CStr(line[..], base);
      CStrChars(mem, base);
      var end := StrEnd(line, base);
      if line[end - 1] == '\n' {
        line[end - 1] := NUL;
        if s == [] {
          assert line[..][base..] == mem[base..];
          SameCStr(mem, line[..], base);
        } else {
          assert line[..][base..end - 1] == s[..|s| - 1];
          CStrIs(line[..], base, |s| - 1);
        }
      }
    }

    /** Overwrites the newline and everything from the first '#' on. */
    method StripInPlace(line: array<char>, base: nat)
      requires 0 < base < line.Length && line[line.Length - 1] == NUL
      modifies line
      ensures line[line.Length - 1] == NUL
      ensures CStr(line[..], base) == Stripped(old(CStr(line[..], base)))
      ensures forall k :: 0 <= k < base ==> line[k] == old(line[k]) || (old(line[k]) == '\n' && line[k] == NUL)
    {
      DropNewline(line, base);
      ghost var t := CStr(line[..], base);
      var comment := StrChr(line, base, '#');
      if comment.Some? {
        Terminate(line, base, comment.value);
      } else {
        assert t[..|t|] == t;
      }
    }

    /** Ends the C string at index `base` before index `end`. */
    method Terminate(line: array<char>, base: nat, end: nat)
      requires base <= end < line.Length && line[line.Length - 1] == NUL && end <= base + |CStr(line[..], base)|
      modifies line
      ensures line[line.Length - 1] == NUL && line[..base] == old(line[..base])
      ensures CStr(line[..], base) == old(CStr(line[..], base))[..end - base]
    {
      ghost var s := CStr(line[..], base);
      CStrChars(line[..], base);
      line[end] := NUL;
      assert line[..][base..end] == s[..end - base];
      CStrIs(line[..], base, end - base);
    }

    /** One round of the loop of `LoadFile`. */
    method LoadChunk(line: array<char>, base: nat, rest: string) returns (n: nat)
      requires 0 < base && line.Length == base + READ_LIMIT + 1 && line[line.Length - 1] == NUL && rest != []
      requires Anchored(line[..base], base)
      modifies line, this`configMap
      ensures line[line.Length - 1] == NUL && Anchored(line[..base], base)
      ensures n == ChunkLength(rest) && configMap == Insert(old(configMap), ParseChunk(rest[..n]))
    {
      ghost var k :| 0 <= k < base && !Blank(line[k]);
      n := ReadChunk(line, base, rest);
      assert line[..base][k] == old(line[..base])[k];
      StripInPlace(line, base);
      ghost var front := line[..base];
      assert !Blank(front[k]);
      if line[base] != NUL {
        ParseLineInPlace(line, base);
        StaysAnchored(front, base);
      } else {
        assert CStr(line[..], base) == [];
      }
    }

    /** `LoadFile` on a file with this text, if it opens; `before` is what stands in front of the line buffer. */
    method LoadFile(opens: bool, text: string, before: string)
      requires Anchored(before, |before|)
      modifies this
      ensures hasLoad == (opens || old(hasLoad))
      ensures configMap == if opens then Load(text, old(configMap)) else old(configMap)
    {
      if !opens {
        return;
      }
      var base := |before|;
      var line := new char[base + READ_LIMIT + 1](i => if 0 <= i < |before| then before[i] else NUL);
      assert line[..][..base] == before;
      var rest := text;
      while rest != []
        invariant line[line.Length - 1] == NUL && Anchored(line[..base], base)
        invariant Load(rest, configMap) == Load(text, old(configMap))
        decreases |rest|
      {
        var n := LoadChunk(line, base, rest);
        rest := rest[n..];
      }
      hasLoad := true;
    }

    /** `WriteToFile`, with the keys in the order of the map; `limits` are what the successive calls of `fwrite` can
        write.  The file gets all lines if and only if the answer is true, and otherwise the lines up to the first
        one that does not get through, and what gets through of that one. */
    method WriteToFile(opens: bool, keys: seq<string>, limits: seq<nat>) returns (ok: bool, text: string)
      requires |limits| == |keys| && forall k <- keys :: k in configMap
      ensures ok <==> opens && forall i :: 0 <= i < |keys| ==> Written(i, keys, limits)
      ensures ok ==> text == Printed(keys, configMap)
      ensures !opens ==> text == []
      ensures opens && !ok ==>
                exists i :: 0 <= i < |keys| && !Written(i, keys, limits)
                            && (forall j :: 0 <= j < i ==> Written(j, keys, limits))
                            && var pair := PrintedPair(keys[i], configMap[keys[i]]);
                               text == Printed(keys[..i], configMap) + pair[..limits[i]]
    {
      text := [];
      if !opens {
        return false, text;
      }
      var i := 0;
      while i < |keys|
        invariant i <= |keys| && text == Printed(keys[..i], configMap)
        invariant forall j :: 0 <= j < i ==> Written(j, keys, limits)
      {
        var pair := PrintedPair(keys[i], configMap[keys[i]]);
        if limits[i] < |pair| {
          assert !Written(i, keys, limits);
          text := text + pair[..limits[i]];
          return false, text;
        }
        PrintedSnoc(keys, configMap, i);
        text := text + pair;
        i := i + 1;
      }
      assert keys[..i] == keys;
      ok := true;
    }

    predicate Written(i: nat, keys: seq<string>, limits: seq<nat>)
      requires i < |keys| == |limits| && forall k <- keys :: k in configMap
      reads this`configMap
    {
      |PrintedPair(keys[i], configMap[keys[i]])| <= limits[i]
    }
  }

  lemma AnchoredFront(mem: seq<char>, base: nat)
    requires base <= |mem| && Anchored(mem[..base], base)
    ensures Anchored(mem, base)
  {
    var k :| 0 <= k < base && !Blank(mem[..base][k]);
    assert !Blank(mem[k]);
  }

  lemma KeyIsCutBack(mem: seq<char>, base: nat, eq: nat)
    requires base <= eq && eq + 1 < |mem| && mem[|mem| - 1] == NUL && mem[eq] == NUL && |CStr(mem, base)| == eq - base
    ensures var mem' := CutBack(mem, eq);
            && mem'[eq] == NUL && mem'[|mem| - 1] == NUL && CStr(mem', eq + 1) == CStr(mem, eq + 1)
            && mem'[..base] == FrontAfter(mem[..base], CStr(mem, base))
  {
    BlankCStrIff(mem, base);
    CutBackFront(mem, base, eq);
    CutBackBehind(mem, eq);
    SameCStr(mem, CutBack(mem, eq), eq + 1);
  }

  lemma CutBackBehind(mem: seq<char>, end: nat)
    requires end < |mem|
    ensures var mem' := CutBack(mem, end);
            mem'[end] == mem[end] && mem'[|mem| - 1] == mem[|mem| - 1] && mem'[end + 1..] == mem[end + 1..]
  {
    forall k | end <= k < |mem| ensures CutBack(mem, end)[k] == mem[k] {
      CutBackAt(mem, end, k);
    }
  }

  lemma {:induction false} PrintedSnoc(keys: seq<string>, m: Settings, i: nat)
    requires i < |keys| && forall k <- keys :: k in m
    ensures Printed(keys[..i + 1], m) == Printed(keys[..i], m) + PrintedPair(keys[i], m[keys[i]])
    decreases i
  {
    if i == 0 {
      assert keys[..1][1..] == [] && keys[..0] == [];
    } else {
      var first, later := PrintedPair(keys[0], m[keys[0]]), keys[1..];
      assert keys[..i + 1][1..] == later[..i] && keys[..i][1..] == later[..i - 1];
      PrintedSnoc(later, m, i - 1);
    }
  }

  /** What stands at `base` and is followed by a NUL is read up to its own first NUL. */
  lemma ReadBack(mem: seq<char>, base: nat, chunk: string)
    requires base + |chunk| < |mem| && mem[|mem| - 1] == NUL && mem[base + |chunk|] == NUL
    requires mem[base..base + |chunk|] == chunk
    ensures CStr(mem, base) == UpToNul(chunk)
  {
    var p := Find(chunk, NUL);
    assert p < |chunk| ==> mem[base + p] == mem[base..base + |chunk|][p];
    assert mem[base..base + p] == chunk[..p];
    CStrIs(mem, base, p);
  }

  lemma {:induction false} SameCStrBefore(mem: seq<char>, mem': seq<char>, at: nat, end: nat)
    requires at <= end < |mem| == |mem'| && mem[|mem| - 1] == NUL && mem'[|mem| - 1] == NUL
    requires mem[end] == NUL && forall k :: at <= k <= end ==> mem'[k] == mem[k]
    ensures CStr(mem', at) == CStr(mem, at)
    decreases end - at
  {
    if mem[at] != NUL {
      SameCStrBefore(mem, mem', at + 1, end);
      assert CStr(mem, at) == [mem[at]] + CStr(mem, at + 1) && CStr(mem', at) == [mem'[at]] + CStr(mem', at + 1);
    }
  }

  lemma SplitAtEquals(mem: seq<char>, mem': seq<char>, base: nat, eq: nat)
    requires base < |mem| && mem[|mem| - 1] == NUL && base <= eq
    requires eq - base == Find(CStr(mem, base), '=') < |CStr(mem, base)|
    requires eq < |mem| && mem' == mem[eq := NUL]
    ensures eq + 1 < |mem| && mem'[|mem| - 1] == NUL
    ensures CStr(mem', base) == CStr(mem, base)[..eq - base] && CStr(mem', eq + 1) == CStr(mem, base)[eq - base + 1..]
  {
    var s := CStr(mem, base);
    CStrChars(mem, base);
    assert mem'[base..eq] == s[..eq - base];
    CStrIs(mem', base, eq - base);
    assert mem'[eq + 1..base + |s|] == s[eq - base + 1..];
    CStrIs(mem', eq + 1, base + |s| - eq - 1);
  }

  lemma SameCStr(mem: seq<char>, mem': seq<char>, at: nat)
    requires at < |mem| == |mem'| && mem[|mem| - 1] == NUL && mem[at..] == mem'[at..]
    ensures CStr(mem', at) == CStr(mem, at)
  {}
}
