/** The command-line tokenizer (flag/flag.go): a parser that knows which
    keys are unary switches and which collect several values, and the set of
    options, slices and positional arguments it produces. */
module Flag {
  import opened Wrappers
  import opened Text

  /** The registered unary keys and slice keys, long and short alike. */
  datatype Parser = Parser(unaries: set<string>, slices: set<string>)

  function NewParser(): (p: Parser)
    ensures p.unaries == {} && p.slices == {}
  {
    Parser({}, {})
  }

  /** The keys a (long, short) pair registers: an empty shorthand is none. */
  function Keys(long: string, short: string): (r: set<string>)
    ensures long in r && (short != "" ==> short in r) && (forall k :: k in r ==> k == long || k == short)
  {
    if short == "" then {long} else {long, short}
  }

  function RegisterUnary(p: Parser, long: string, short: string): (r: Parser)
    ensures r.slices == p.slices && r.unaries == p.unaries + Keys(long, short)
  {
    p.(unaries := p.unaries + Keys(long, short))
  }

  function RegisterSlice(p: Parser, long: string, short: string): (r: Parser)
    ensures r.unaries == p.unaries && r.slices == p.slices + Keys(long, short)
  {
    p.(slices := p.slices + Keys(long, short))
  }

  /** The parse result: slice keys with their values in order, single-valued
      options, and the positional arguments in order. */
  datatype FlagSet = FlagSet(slices: map<string, seq<string>>, flags: map<string, string>, posArgs: seq<string>)

  const EmptySet := FlagSet(map[], map[], [])

  /** The values collected so far for a slice key. */
  function SliceOf(fs: FlagSet, key: string): seq<string> {
    if key in fs.slices then fs.slices[key] else []
  }

  /** addflag: a slice key gains one more value at the end; any other key
      is set, replacing what it had. */
  function AddFlag(p: Parser, fs: FlagSet, key: string, v: string): (r: FlagSet)
    ensures r.posArgs == fs.posArgs
    ensures key !in p.slices ==> r.flags == fs.flags[key := v] && r.slices == fs.slices
    ensures key in p.slices ==> r.flags == fs.flags && r.slices == fs.slices[key := SliceOf(fs, key) + [v]]
  {
    if key !in p.slices then fs.(flags := fs.flags[key := v])
    else fs.(slices := fs.slices[key := SliceOf(fs, key) + [v]])
  }

  function SetTrue(fs: FlagSet, key: string): FlagSet {
    fs.(flags := fs.flags[key := "true"])
  }

  /** The keys of a bundle's letters. */
  function Letters(s: string): set<string> {
    set i | 0 <= i < |s| :: [s[i]]
  }

  /** Every letter of a bundle, switched on. */
  function LettersOn(ls: string): (m: map<string, string>)
    ensures m.Keys == Letters(ls)
    ensures forall k :: k in m ==> m[k] == "true"
  {
    map k | k in Letters(ls) :: "true"
  }

  /** The loop over a short bundle: each letter that is a registered unary
      key is switched on. */
  function SetUnaryLetters(p: Parser, fs: FlagSet, letters: string): (r: FlagSet)
    ensures r.slices == fs.slices && r.posArgs == fs.posArgs
    ensures forall k :: k in r.flags <==> k in fs.flags || (k in Letters(letters) && k in p.unaries)
    ensures forall k :: k in r.flags ==>
      r.flags[k] == (if k in Letters(letters) && k in p.unaries then "true" else fs.flags[k])
    decreases |letters|
  {
    if |letters| == 0 then fs
    else
      var key := [letters[0]];
      var next := if key in p.unaries then SetTrue(fs, key) else fs;
      var r := SetUnaryLetters(p, next, letters[1..]);
      assert Letters(letters) == {key} + Letters(letters[1..]) by {
        forall k | k in Letters(letters) ensures k in {key} + Letters(letters[1..]) {
          var i :| 0 <= i < |letters| && k == [letters[i]];
          if i > 0 {
            assert letters[1..][i - 1] == letters[i];
          }
        }
        forall k | k in Letters(letters[1..]) ensures k in Letters(letters) {
          var i :| 0 <= i < |letters[1..]| && k == [letters[1..][i]];
          assert letters[1..][i] == letters[i + 1];
        }
      }
      r
  }

  predicate AllUnary(p: Parser, letters: string) {
    forall i :: 0 <= i < |letters| ==> [letters[i]] in p.unaries
  }

  /** The loop as written, and the loop with a short bundle of unary letters
      kept from consuming the next token. */
  datatype Mode = AsWritten | BundleFixed

  /** The next token as the loop sees it: the one after the first. */
  function NextOf(args: seq<string>): Option<string> {
    if |args| > 1 then Some(args[1]) else None
  }

  /** One pass of the loop of Parser.Parse, on the current token and the
      one after it (if any): the updated set and how many tokens were
      consumed. A "--" token is skipped. "--k=v" (exactly one '=') adds k=v;
      a registered unary "--k" is switched on; any other "--k" takes the
      next token as its value, or is dropped at the end of the input. A "-x"
      token is read the same way, except that when longer than one
      character and not an assignment each of its letters that is a unary
      key is switched on first. Every other token is positional. A token
      that is exactly "-" makes Go's dash stripping index past the end of
      the string, so no pass reads one. */
  function ReadToken(p: Parser, mode: Mode, fs: FlagSet, arg: string, next: Option<string>): (r: (FlagSet, nat))
    requires arg != "-"
    ensures r.1 == 1 || (r.1 == 2 && next.Some?)
  {
    if HasPrefix(arg, "--") then
      if arg == "--" then (fs, 1) else ReadLong(p, fs, arg[2..], next)
    else if HasPrefix(arg, "-") then ReadShort(p, mode, fs, arg[1..], next)
    else (fs.(posArgs := fs.posArgs + [arg]), 1)
  }

  /** A "--name" token, its dashes stripped. */
  function ReadLong(p: Parser, fs: FlagSet, name: string, next: Option<string>): (r: (FlagSet, nat))
    ensures r.1 == 1 || (r.1 == 2 && next.Some?)
  {
    var opt := Split(name, '=');
    if |opt| == 2 then (AddFlag(p, fs, opt[0], opt[1]), 1)
    else if name in p.unaries then (SetTrue(fs, name), 1)
    else if next.Some? then (AddFlag(p, fs, name, next.value), 2)
    else (fs, 1)
  }

  /** A "-name" token, its dash stripped. */
  function ReadShort(p: Parser, mode: Mode, fs: FlagSet, name: string, next: Option<string>): (r: (FlagSet, nat))
    ensures r.1 == 1 || (r.1 == 2 && next.Some?)
  {
    var opt := Split(name, '=');
    if |name| > 1 && |opt| == 2 then (AddFlag(p, fs, opt[0], opt[1]), 1)
    else
      var fs1 := if |name| > 1 then SetUnaryLetters(p, fs, name) else fs;
      if name in p.unaries then (SetTrue(fs1, name), 1)
      else if mode == BundleFixed && |name| > 1 && AllUnary(p, name) then (fs1, 1)
      else if next.Some? then (AddFlag(p, fs1, name, next.value), 2)
      else (fs1, 1)
  }

  /** How many tokens one pass consumes does not depend on the set being
      built. */
  lemma TokenWidth(p: Parser, mode: Mode, fs: FlagSet, arg: string, next: Option<string>)
    requires arg != "-"
    ensures ReadToken(p, mode, fs, arg, next).1 == ReadToken(p, mode, EmptySet, arg, next).1
  {
    if HasPrefix(arg, "--") {
      if arg != "--" {
        LongWidth(p, fs, arg[2..], next);
      }
    } else if HasPrefix(arg, "-") {
      ShortWidth(p, mode, fs, arg[1..], next);
    }
  }

  lemma LongWidth(p: Parser, fs: FlagSet, name: string, next: Option<string>)
    ensures ReadLong(p, fs, name, next).1 == ReadLong(p, EmptySet, name, next).1
  {}

  lemma ShortWidth(p: Parser, mode: Mode, fs: FlagSet, name: string, next: Option<string>)
    ensures ReadShort(p, mode, fs, name, next).1 == ReadShort(p, mode, EmptySet, name, next).1
  {}

  /** A command line the loop reads to the end: no token that a pass reads
      as a token is "-". A "-" that an option takes as its value is never
      read as a token and is fine. */
  predicate Parseable(p: Parser, mode: Mode, args: seq<string>)
    decreases |args|
  {
    |args| == 0 ||
    (args[0] != "-" && Parseable(p, mode, args[ReadToken(p, mode, EmptySet, args[0], NextOf(args)).1..]))
  }

  /** The loop of Parser.Parse from the first remaining token on. */
  function ParseFrom(p: Parser, mode: Mode, fs: FlagSet, args: seq<string>): FlagSet
    requires Parseable(p, mode, args)
    decreases |args|
  {
    if |args| == 0 then fs
    else
      var (fs1, n) := ReadToken(p, mode, fs, args[0], NextOf(args));
      TokenWidth(p, mode, fs, args[0], NextOf(args));
      ParseFrom(p, mode, fs1, args[n..])
  }

  /** Parser.Parse (its error is always nil), with the bundle loop
      corrected. */
  function Parse(p: Parser, args: seq<string>): FlagSet
    requires Parseable(p, BundleFixed, args)
  {
    ParseFrom(p, BundleFixed, EmptySet, args)
  }

  /** Parser.Parse as written. */
  function ParseAsWritten(p: Parser, args: seq<string>): FlagSet
    requires Parseable(p, AsWritten, args)
  {
    ParseFrom(p, AsWritten, EmptySet, args)
  }

  /** Set.Positional: the 1-based positional argument, ("", false) past the
      end. Position 0 makes Go index at -1 and is excluded. */
  function Positional(fs: FlagSet, i: nat): (r: (string, bool))
    requires i >= 1
    ensures r.1 <==> i <= |fs.posArgs|
    ensures r.1 ==> r.0 == fs.posArgs[i - 1]
    ensures !r.1 ==> r.0 == ""
  {
    if i - 1 > |fs.posArgs| - 1 then ("", false) else (fs.posArgs[i - 1], true)
  }

  /** Set.Option: the longhand's value if set, else the shorthand's. */
  function Option(fs: FlagSet, long: string, short: string): (r: (string, bool))
    ensures r.1 <==> long in fs.flags || short in fs.flags
    ensures long in fs.flags ==> r.0 == fs.flags[long]
    ensures long !in fs.flags && short in fs.flags ==> r.0 == fs.flags[short]
    ensures !r.1 ==> r.0 == ""
  {
    if long in fs.flags then (fs.flags[long], true)
    else if short in fs.flags then (fs.flags[short], true)
    else ("", false)
  }

  /** Set.Options: the longhand's values followed by the shorthand's. */
  function Options(fs: FlagSet, long: string, short: string): (r: seq<string>)
    ensures |r| == |SliceOf(fs, long)| + |SliceOf(fs, short)|
    ensures r[..|SliceOf(fs, long)|] == SliceOf(fs, long)
    ensures r[|SliceOf(fs, long)|..] == SliceOf(fs, short)
  {
    SliceOf(fs, long) + SliceOf(fs, short)
  }

  // ---------------------------------------------------------------------
  // A reference reading of the command line, token by token.

  /** What a command line is made of, each kind written the way the parser
      expects it. */
  datatype Token =
    | Assign(key: string, value: string)        // "--key=value"
    | ShortAssign(key: string, value: string)   // "-key=value"
    | Spaced(key: string, value: string)        // "--key" "value"
    | ShortSpaced(key: string, value: string)   // "-k" "value", a one-letter key
    | Switch(name: string)                      // "--name", a unary key
    | ShortSwitch(letter: char)                 // "-l", a unary key
    | Bundle(letters: string)                   // "-letters", every letter a unary key
    | BundleValue(key: string, value: string)   // "-letters" "value", as written
    | Arg(s: string)                            // a positional argument
    | EndOfOptions                              // "--"

  function Render(t: Token): seq<string> {
    match t
    case Assign(k, v) => ["--" + k + "=" + v]
    case ShortAssign(k, v) => ["-" + k + "=" + v]
    case Spaced(k, v) => ["--" + k, v]
    case ShortSpaced(k, v) => ["-" + k, v]
    case Switch(n) => ["--" + n]
    case ShortSwitch(l) => ["-" + [l]]
    case Bundle(ls) => ["-" + ls]
    case BundleValue(ls, v) => ["-" + ls, v]
    case Arg(s) => [s]
    case EndOfOptions => ["--"]
  }

  function RenderAll(ts: seq<Token>): seq<string>
    decreases |ts|
  {
    if |ts| == 0 then [] else Render(ts[0]) + RenderAll(ts[1..])
  }

  /** A token without a leading dash, which the parser keeps as positional. */
  predicate IsPositionalArg(s: string) {
    s == "" || s[0] != '-'
  }

  /** A short bundle: at least two letters, no '=' and no second dash. */
  predicate IsBundle(p: Parser, ls: string) {
    |ls| >= 2 && '=' !in ls && ls[0] != '-' && AllUnary(p, ls)
  }

  /** The tokens that read back as themselves under a reading of the loop.
      The two readings differ only on a bundle of unary letters that is not
      itself a unary key: corrected, it stands alone; as written, it takes
      the token after it as its value. */
  predicate WellFormed(p: Parser, mode: Mode, t: Token) {
    match t
    case Assign(k, v) => '=' !in k && '=' !in v
    case ShortAssign(k, v) => '=' !in k && '=' !in v && |k| >= 1 && k[0] != '-'
    case Spaced(k, v) => '=' !in k && k != "" && k !in p.unaries
    case ShortSpaced(k, v) => |k| == 1 && k[0] != '-' && k !in p.unaries
    case Switch(n) => '=' !in n && n != "" && n in p.unaries
    case ShortSwitch(l) => l != '-' && [l] in p.unaries
    case Bundle(ls) => IsBundle(p, ls) && (mode == BundleFixed || ls in p.unaries)
    case BundleValue(ls, _) => IsBundle(p, ls) && mode == AsWritten && ls !in p.unaries
    case Arg(s) => IsPositionalArg(s)
    case EndOfOptions => true
  }

  /** A bundle's letters switched on, and the bundle itself when it is a
      unary key. */
  function BundleOn(p: Parser, fs: FlagSet, ls: string): FlagSet {
    var lettersOn := fs.flags + LettersOn(ls);
    fs.(flags := if ls in p.unaries then lettersOn[ls := "true"] else lettersOn)
  }

  /** What a token means for the set being built. */
  function Interpret(p: Parser, fs: FlagSet, t: Token): FlagSet {
    match t
    case Assign(k, v) => AddFlag(p, fs, k, v)
    case ShortAssign(k, v) => AddFlag(p, fs, k, v)
    case Spaced(k, v) => AddFlag(p, fs, k, v)
    case ShortSpaced(k, v) => AddFlag(p, fs, k, v)
    case Switch(n) => SetTrue(fs, n)
    case ShortSwitch(l) => SetTrue(fs, [l])
    case Bundle(ls) => BundleOn(p, fs, ls)
    case BundleValue(ls, v) => AddFlag(p, BundleOn(p, fs, ls), ls, v)
    case Arg(s) => fs.(posArgs := fs.posArgs + [s])
    case EndOfOptions => fs
  }

  function InterpretAll(p: Parser, fs: FlagSet, ts: seq<Token>): FlagSet
    decreases |ts|
  {
    if |ts| == 0 then fs else InterpretAll(p, Interpret(p, fs, ts[0]), ts[1..])
  }

  /** The tokens written as two: an option and the value after it. */
  predicate TakesNext(t: Token) {
    t.Spaced? || t.ShortSpaced? || t.BundleValue?
  }

  /** The tokens that give their key a value of their own. */
  predicate GivesValue(t: Token) {
    t.Assign? || t.ShortAssign? || TakesNext(t)
  }

  predicate AllWellFormed(p: Parser, mode: Mode, ts: seq<Token>) {
    forall i :: 0 <= i < |ts| ==> WellFormed(p, mode, ts[i])
  }

  lemma SplitNone(s: string, sep: char)
    requires sep !in s
    ensures Split(s, sep) == [s]
  {}

  lemma SplitPair(k: string, v: string, sep: char)
    requires sep !in k && sep !in v
    ensures Split(k + [sep] + v, sep) == [k, v]
  {
    SplitJoin([k, v], sep);
  }

  /** With every letter a unary key, the bundle loop switches exactly the
      letters on. */
  lemma BundleLetters(p: Parser, fs: FlagSet, ls: string)
    requires AllUnary(p, ls)
    ensures SetUnaryLetters(p, fs, ls).flags == fs.flags + LettersOn(ls)
  {
    var r := SetUnaryLetters(p, fs, ls).flags;
    var on := LettersOn(ls);
    var m := fs.flags + on;
    LettersAreUnary(p, ls);
    forall k ensures (k in r <==> k in m) && (k in r ==> r[k] == m[k]) {
      if k in on {
        assert k in Letters(ls) && k in p.unaries;
      }
    }
    MapsEqual(r, m);
  }

  lemma MapsEqual<K, V>(a: map<K, V>, b: map<K, V>)
    requires forall k :: (k in a <==> k in b) && (k in a ==> a[k] == b[k])
    ensures a == b
  {}

  lemma LettersAreUnary(p: Parser, ls: string)
    requires AllUnary(p, ls)
    ensures forall k :: k in Letters(ls) ==> k in p.unaries
  {
    forall k | k in Letters(ls) ensures k in p.unaries {
      var i :| 0 <= i < |ls| && k == [ls[i]];
    }
  }

  lemma ReadAssign(p: Parser, mode: Mode, fs: FlagSet, k: string, v: string, next: Option<string>)
    requires '=' !in k && '=' !in v
    ensures ReadToken(p, mode, fs, "--" + k + "=" + v, next) == (AddFlag(p, fs, k, v), 1)
  {
    var arg := "--" + k + "=" + v;
    assert arg[2..] == k + ['='] + v;
    SplitPair(k, v, '=');
    assert HasPrefix(arg, "--");
  }

  lemma ReadShortAssign(p: Parser, mode: Mode, fs: FlagSet, k: string, v: string, next: Option<string>)
    requires '=' !in k && '=' !in v && |k| >= 1 && k[0] != '-'
    ensures ReadToken(p, mode, fs, "-" + k + "=" + v, next) == (AddFlag(p, fs, k, v), 1)
  {
    var arg := "-" + k + "=" + v;
    assert arg[1..] == k + ['='] + v;
    assert arg[1] == k[0];
    SplitPair(k, v, '=');
    assert !HasPrefix(arg, "--") && HasPrefix(arg, "-");
  }

  lemma ReadLongName(p: Parser, mode: Mode, fs: FlagSet, n: string, next: Option<string>)
    requires '=' !in n && n != ""
    ensures n in p.unaries ==> ReadToken(p, mode, fs, "--" + n, next) == (SetTrue(fs, n), 1)
    ensures n !in p.unaries && next.Some? ==> ReadToken(p, mode, fs, "--" + n, next) == (AddFlag(p, fs, n, next.value), 2)
  {
    var arg := "--" + n;
    assert arg[2..] == n;
    SplitNone(n, '=');
    assert HasPrefix(arg, "--") && arg != "--";
  }

  /** "-k" for a one-letter key that is not unary takes the next token as
      its value. */
  lemma ReadShortName(p: Parser, mode: Mode, fs: FlagSet, k: string, v: string)
    requires |k| == 1 && k[0] != '-' && k !in p.unaries
    ensures ReadToken(p, mode, fs, "-" + k, Some(v)) == (AddFlag(p, fs, k, v), 2)
  {
    var arg := "-" + k;
    assert arg[1..] == k && arg == ['-', k[0]];
    assert arg[..2][1] == k[0] && "--"[1] == '-';
  }

  lemma ReadShortSwitch(p: Parser, mode: Mode, fs: FlagSet, l: char, next: Option<string>)
    requires l != '-' && [l] in p.unaries
    ensures ReadToken(p, mode, fs, "-" + [l], next) == (SetTrue(fs, [l]), 1)
  {
    var arg := "-" + [l];
    assert arg[1..] == [l] && arg == ['-', l];
    assert arg[..2][1] == l && "--"[1] == '-';
  }

  /** How one pass reads a short bundle, in either mode. */
  lemma ReadBundleToken(p: Parser, mode: Mode, fs: FlagSet, ls: string, next: Option<string>)
    requires |ls| >= 2 && '=' !in ls && ls[0] != '-'
    ensures var fs1 := SetUnaryLetters(p, fs, ls);
      ReadToken(p, mode, fs, "-" + ls, next) ==
        if ls in p.unaries then (SetTrue(fs1, ls), 1)
        else if mode == BundleFixed && AllUnary(p, ls) then (fs1, 1)
        else if next.Some? then (AddFlag(p, fs1, ls, next.value), 2)
        else (fs1, 1)
  {
    var arg := "-" + ls;
    assert arg[1..] == ls;
    assert arg[1] == ls[0];
    SplitNone(ls, '=');
    assert !HasPrefix(arg, "--") && HasPrefix(arg, "-");
  }

  /** What the bundle loop and the check after it leave, when every letter
      is unary: the reference meaning of the bundle. */
  lemma BundleMeaning(p: Parser, fs: FlagSet, ls: string)
    requires AllUnary(p, ls)
    ensures var fs1 := SetUnaryLetters(p, fs, ls);
      (if ls in p.unaries then SetTrue(fs1, ls) else fs1) == BundleOn(p, fs, ls)
  {
    BundleLetters(p, fs, ls);
  }

  /** A bundle that stands alone: under the corrected loop always, as
      written only when the bundle is itself a unary key. */
  lemma ReadBundle(p: Parser, mode: Mode, fs: FlagSet, ls: string, next: Option<string>)
    requires IsBundle(p, ls) && (mode == BundleFixed || ls in p.unaries)
    ensures ReadToken(p, mode, fs, "-" + ls, next) == (BundleOn(p, fs, ls), 1)
  {
    ReadBundleToken(p, mode, fs, ls, next);
    BundleMeaning(p, fs, ls);
  }

  /** As written, a bundle that is not itself a unary key switches its
      letters on and takes the next token as its own value. */
  lemma ReadBundleValue(p: Parser, fs: FlagSet, ls: string, v: string)
    requires IsBundle(p, ls) && ls !in p.unaries
    ensures ReadToken(p, AsWritten, fs, "-" + ls, Some(v)) == (AddFlag(p, BundleOn(p, fs, ls), ls, v), 2)
  {
    ReadBundleToken(p, AsWritten, fs, ls, Some(v));
    BundleMeaning(p, fs, ls);
  }

  lemma ReadArg(p: Parser, mode: Mode, fs: FlagSet, s: string, next: Option<string>)
    requires IsPositionalArg(s)
    ensures ReadToken(p, mode, fs, s, next) == (fs.(posArgs := fs.posArgs + [s]), 1)
  {
    assert !HasPrefix(s, "-");
  }

  /** A token well formed under a reading, read by one pass of that loop,
      has its reference meaning and consumes exactly the tokens it was
      written as. */
  lemma ReadTokenMeaning(p: Parser, mode: Mode, fs: FlagSet, t: Token, next: Option<string>)
    requires WellFormed(p, mode, t)
    requires TakesNext(t) ==> next == Some(t.value)
    ensures Render(t)[0] != "-"
    ensures ReadToken(p, mode, fs, Render(t)[0], next) == (Interpret(p, fs, t), |Render(t)|)
  {
    match t
    case Assign(k, v) => ReadAssign(p, mode, fs, k, v, next);
    case ShortAssign(k, v) => ReadShortAssign(p, mode, fs, k, v, next);
    case Spaced(k, v) => ReadLongName(p, mode, fs, k, next);
    case ShortSpaced(k, v) => ReadShortName(p, mode, fs, k, v);
    case Switch(n) => ReadLongName(p, mode, fs, n, next);
    case ShortSwitch(l) => ReadShortSwitch(p, mode, fs, l, next);
    case Bundle(ls) => ReadBundle(p, mode, fs, ls, next);
    case BundleValue(ls, v) => ReadBundleValue(p, fs, ls, v);
    case Arg(s) => ReadArg(p, mode, fs, s, next);
    case EndOfOptions =>
  }

  /** One token, followed by any line the loop reads to the end, is read as
      its reference meaning and the parse carries on after it. */
  lemma ParseToken(p: Parser, mode: Mode, fs: FlagSet, t: Token, rest: seq<string>)
    requires WellFormed(p, mode, t) && Parseable(p, mode, rest)
    ensures Parseable(p, mode, Render(t) + rest)
    ensures ParseFrom(p, mode, fs, Render(t) + rest) == ParseFrom(p, mode, Interpret(p, fs, t), rest)
  {
    var args := Render(t) + rest;
    assert args[0] == Render(t)[0] && args[|Render(t)|..] == rest;
    assert TakesNext(t) ==> NextOf(args) == Some(t.value) by {
      if TakesNext(t) {
        assert args[1] == Render(t)[1] == t.value;
      }
    }
    ReadTokenMeaning(p, mode, fs, t, NextOf(args));
    ReadTokenMeaning(p, mode, EmptySet, t, NextOf(args));
  }

  /** Round trip, under either reading of the loop: a command line written
      from tokens well formed under that reading parses to exactly what the
      tokens mean, read one after another. */
  lemma {:induction false} ParseRendered(p: Parser, mode: Mode, fs: FlagSet, ts: seq<Token>)
    requires AllWellFormed(p, mode, ts)
    ensures Parseable(p, mode, RenderAll(ts))
    ensures ParseFrom(p, mode, fs, RenderAll(ts)) == InterpretAll(p, fs, ts)
    decreases |ts|
  {
    if |ts| > 0 {
      ParseRendered(p, mode, Interpret(p, fs, ts[0]), ts[1..]);
      ParseToken(p, mode, fs, ts[0], RenderAll(ts[1..]));
    }
  }

  /** The two readings agree on every line written from tokens well formed
      under both: the loop as written and the corrected one part only on a
      bundle of unary letters, not itself a key, that has a token after it. */
  lemma ModesAgree(p: Parser, fs: FlagSet, ts: seq<Token>)
    requires AllWellFormed(p, AsWritten, ts) && AllWellFormed(p, BundleFixed, ts)
    ensures Parseable(p, AsWritten, RenderAll(ts)) && Parseable(p, BundleFixed, RenderAll(ts))
    ensures ParseFrom(p, AsWritten, fs, RenderAll(ts)) == ParseFrom(p, BundleFixed, fs, RenderAll(ts))
  {
    ParseRendered(p, AsWritten, fs, ts);
    ParseRendered(p, BundleFixed, fs, ts);
  }

  /** The positional arguments of the tokens, in order. */
  function Positionals(ts: seq<Token>): seq<string>
    decreases |ts|
  {
    if |ts| == 0 then []
    else (if ts[0].Arg? then [ts[0].s] else []) + Positionals(ts[1..])
  }

  /** Only Arg tokens add positional arguments, in the order given; "--" and
      the value of a spaced option never become one. */
  lemma {:induction false} InterpretPositionals(p: Parser, fs: FlagSet, ts: seq<Token>)
    ensures InterpretAll(p, fs, ts).posArgs == fs.posArgs + Positionals(ts)
    decreases |ts|
  {
    if |ts| > 0 {
      InterpretPositionals(p, Interpret(p, fs, ts[0]), ts[1..]);
    }
  }

  /** The values the tokens give a slice key, in order. */
  function SliceValues(ts: seq<Token>, key: string): seq<string>
    decreases |ts|
  {
    if |ts| == 0 then []
    else
      var t := ts[0];
      (if GivesValue(t) && t.key == key then [t.value] else [])
        + SliceValues(ts[1..], key)
  }

  /** A slice key that no switch sets collects every value given to it,
      in either form, in order. */
  lemma {:induction false} InterpretSlice(p: Parser, fs: FlagSet, ts: seq<Token>, key: string)
    requires key in p.slices
    ensures SliceOf(InterpretAll(p, fs, ts), key) == SliceOf(fs, key) + SliceValues(ts, key)
    decreases |ts|
  {
    if |ts| > 0 {
      var next := Interpret(p, fs, ts[0]);
      InterpretSlice(p, next, ts[1..], key);
      SliceStep(p, fs, ts[0], key);
    }
  }

  /** One token adds its own value to a slice key, if it gives the key one. */
  lemma SliceStep(p: Parser, fs: FlagSet, t: Token, key: string)
    requires key in p.slices
    ensures SliceOf(Interpret(p, fs, t), key)
      == SliceOf(fs, key) + (if GivesValue(t) && t.key == key then [t.value] else [])
  {
    if !(GivesValue(t) && t.key == key) {
      assert SliceOf(fs, key) + [] == SliceOf(fs, key);
    }
  }

  /** The value a bundle gives a single-valued key before any value of its
      own: "true" for its letters, and for itself when it is a unary key. */
  function BundleTokenValue(p: Parser, ls: string, key: string): Option<string> {
    if key in Letters(ls) || (key == ls && ls in p.unaries) then Some("true") else None
  }

  /** The value a token gives a single-valued key, if it gives one: the
      value of an option that is not a slice key, or "true" for a switch,
      a bundle's letters and a bundle that is itself a unary key. */
  function TokenValue(p: Parser, t: Token, key: string): Option<string> {
    match t
    case Assign(k, v) => if k == key && key !in p.slices then Some(v) else None
    case ShortAssign(k, v) => if k == key && key !in p.slices then Some(v) else None
    case Spaced(k, v) => if k == key && key !in p.slices then Some(v) else None
    case ShortSpaced(k, v) => if k == key && key !in p.slices then Some(v) else None
    case Switch(n) => if n == key then Some("true") else None
    case ShortSwitch(l) => if [l] == key then Some("true") else None
    case Bundle(ls) => BundleTokenValue(p, ls, key)
    case BundleValue(ls, v) => if ls == key && key !in p.slices then Some(v) else BundleTokenValue(p, ls, key)
    case Arg(_) => None
    case EndOfOptions => None
  }

  /** The value the last token that gives the key one gives it. */
  function LastValue(p: Parser, ts: seq<Token>, key: string): Option<string>
    decreases |ts|
  {
    if |ts| == 0 then None
    else if LastValue(p, ts[1..], key).Some? then LastValue(p, ts[1..], key)
    else TokenValue(p, ts[0], key)
  }

  lemma InterpretTokenValue(p: Parser, fs: FlagSet, t: Token, key: string)
    ensures var f := Interpret(p, fs, t).flags;
      && (key in f <==> TokenValue(p, t, key).Some? || key in fs.flags)
      && (TokenValue(p, t, key).Some? ==> f[key] == TokenValue(p, t, key).value)
      && (TokenValue(p, t, key).None? && key in fs.flags ==> f[key] == fs.flags[key])
  {
    match t
    case Bundle(ls) => BundleFlags(p, fs, ls, key);
    case BundleValue(ls, _) => BundleFlags(p, fs, ls, key);
    case _ =>
  }

  /** What a bundle leaves a single-valued key: "true" where it gives one,
      and the key's old value otherwise. */
  lemma BundleFlags(p: Parser, fs: FlagSet, ls: string, key: string)
    ensures var f := BundleOn(p, fs, ls).flags;
      && (key in f <==> BundleTokenValue(p, ls, key).Some? || key in fs.flags)
      && (BundleTokenValue(p, ls, key).Some? ==> f[key] == "true")
      && (BundleTokenValue(p, ls, key).None? && key in fs.flags ==> f[key] == fs.flags[key])
  {
    var lettersOn := fs.flags + LettersOn(ls);
    assert key in lettersOn <==> key in Letters(ls) || key in fs.flags;
  }

  /** A single-valued key ends up with the value of the last token that
      gives it one, and keeps what it had when no token does: later options
      override earlier ones. */
  lemma {:induction false} InterpretLastValue(p: Parser, fs: FlagSet, ts: seq<Token>, key: string)
    ensures var f := InterpretAll(p, fs, ts).flags;
      && (key in f <==> LastValue(p, ts, key).Some? || key in fs.flags)
      && (LastValue(p, ts, key).Some? ==> f[key] == LastValue(p, ts, key).value)
      && (LastValue(p, ts, key).None? && key in fs.flags ==> f[key] == fs.flags[key])
    decreases |ts|
  {
    if |ts| > 0 {
      InterpretTokenValue(p, fs, ts[0], key);
      InterpretLastValue(p, Interpret(p, fs, ts[0]), ts[1..], key);
    }
  }

  /** A key that is not a slice key collects no values. */
  lemma {:induction false} InterpretNotSlice(p: Parser, fs: FlagSet, ts: seq<Token>, key: string)
    requires key !in p.slices
    ensures SliceOf(InterpretAll(p, fs, ts), key) == SliceOf(fs, key)
    decreases |ts|
  {
    if |ts| > 0 {
      InterpretNotSlice(p, Interpret(p, fs, ts[0]), ts[1..], key);
    }
  }

  // ---------------------------------------------------------------------
  // The cases of flag/flag_test.go.

  lemma RenderAllCons(t: Token, ts: seq<Token>)
    ensures RenderAll([t] + ts) == Render(t) + RenderAll(ts)
  {
    assert ([t] + ts)[1..] == ts;
  }

  lemma InterpretAllCons(p: Parser, fs: FlagSet, t: Token, ts: seq<Token>)
    ensures InterpretAll(p, fs, [t] + ts) == InterpretAll(p, Interpret(p, fs, t), ts)
  {
    assert ([t] + ts)[1..] == ts;
  }

  /** A line of one, two or three tokens, well formed under a reading of
      the loop, parses as their meanings in turn. */
  lemma ParseOne(p: Parser, mode: Mode, t0: Token)
    requires WellFormed(p, mode, t0)
    ensures Parseable(p, mode, Render(t0))
    ensures ParseFrom(p, mode, EmptySet, Render(t0)) == Interpret(p, EmptySet, t0)
  {
    RenderAllCons(t0, []);
    assert [t0] + [] == [t0];
    assert Render(t0) + [] == Render(t0);
    assert AllWellFormed(p, mode, [t0]);
    ParseRendered(p, mode, EmptySet, [t0]);
    InterpretAllCons(p, EmptySet, t0, []);
  }

  lemma ParseTwo(p: Parser, mode: Mode, t0: Token, t1: Token)
    requires WellFormed(p, mode, t0) && WellFormed(p, mode, t1)
    ensures var args := Render(t0) + Render(t1);
      Parseable(p, mode, args) &&
      ParseFrom(p, mode, EmptySet, args) == Interpret(p, Interpret(p, EmptySet, t0), t1)
  {
    var r1 := [t1];
    var ts := [t0] + r1;
    RenderAllCons(t1, []);
    RenderAllCons(t0, r1);
    assert [t1] + [] == r1;
    assert Render(t1) + [] == Render(t1);
    assert AllWellFormed(p, mode, ts);
    ParseRendered(p, mode, EmptySet, ts);
    var s1 := Interpret(p, EmptySet, t0);
    InterpretAllCons(p, EmptySet, t0, r1);
    InterpretAllCons(p, s1, t1, []);
  }

  lemma ParseThree(p: Parser, mode: Mode, t0: Token, t1: Token, t2: Token)
    requires WellFormed(p, mode, t0) && WellFormed(p, mode, t1) && WellFormed(p, mode, t2)
    ensures var args := Render(t0) + Render(t1) + Render(t2);
      Parseable(p, mode, args) &&
      ParseFrom(p, mode, EmptySet, args) == Interpret(p, Interpret(p, Interpret(p, EmptySet, t0), t1), t2)
  {
    var ts := [t0, t1, t2];
    assert AllWellFormed(p, mode, ts);
    ParseRendered(p, mode, EmptySet, ts);
    RenderAllThree(t0, t1, t2);
    InterpretAllThree(p, t0, t1, t2);
  }

  lemma RenderAllThree(t0: Token, t1: Token, t2: Token)
    ensures RenderAll([t0, t1, t2]) == Render(t0) + Render(t1) + Render(t2)
  {
    var ts := [t0, t1, t2];
    assert ts[1..] == [t1, t2] && [t1, t2][1..] == [t2] && [t2][1..] == [];
    assert RenderAll([t2]) == Render(t2) by {
      assert Render(t2) + [] == Render(t2);
    }
    assert RenderAll(ts) == Render(t0) + (Render(t1) + Render(t2));
    ConcatAssoc(Render(t0), Render(t1), Render(t2));
  }

  lemma ConcatAssoc(a: seq<string>, b: seq<string>, c: seq<string>)
    ensures a + (b + c) == a + b + c
  {}

  lemma InterpretAllThree(p: Parser, t0: Token, t1: Token, t2: Token)
    ensures InterpretAll(p, EmptySet, [t0, t1, t2]) == Interpret(p, Interpret(p, Interpret(p, EmptySet, t0), t1), t2)
  {
    var s1 := Interpret(p, EmptySet, t0);
    var s2 := Interpret(p, s1, t1);
    assert [t0] + [t1, t2] == [t0, t1, t2];
    assert [t1] + [t2] == [t1, t2];
    assert [t2] + [] == [t2];
    InterpretAllCons(p, EmptySet, t0, [t1, t2]);
    InterpretAllCons(p, s1, t1, [t2]);
    InterpretAllCons(p, s2, t2, []);
  }

  /** A line of four well-formed tokens parses as their meanings in turn. */
  lemma ParseFour(p: Parser, mode: Mode, t0: Token, t1: Token, t2: Token, t3: Token)
    requires WellFormed(p, mode, t0) && WellFormed(p, mode, t1) && WellFormed(p, mode, t2) && WellFormed(p, mode, t3)
    ensures var args := Render(t0) + Render(t1) + Render(t2) + Render(t3);
      Parseable(p, mode, args) &&
      ParseFrom(p, mode, EmptySet, args) == Interpret(p, Interpret(p, Interpret(p, Interpret(p, EmptySet, t0), t1), t2), t3)
  {
    var ts := [t0, t1, t2, t3];
    assert AllWellFormed(p, mode, ts);
    ParseRendered(p, mode, EmptySet, ts);
    RenderAllFour(t0, t1, t2, t3);
    InterpretAllFour(p, t0, t1, t2, t3);
  }

  lemma RenderAllFour(t0: Token, t1: Token, t2: Token, t3: Token)
    ensures RenderAll([t0, t1, t2, t3]) == Render(t0) + Render(t1) + Render(t2) + Render(t3)
  {
    var ts := [t0, t1, t2, t3];
    assert ts[1..] == [t1, t2, t3];
    assert RenderAll(ts) == Render(t0) + RenderAll([t1, t2, t3]);
    RenderAllThree(t1, t2, t3);
    ConcatAssoc(Render(t0), Render(t1) + Render(t2), Render(t3));
    ConcatAssoc(Render(t0), Render(t1), Render(t2));
  }

  lemma InterpretAllFour(p: Parser, t0: Token, t1: Token, t2: Token, t3: Token)
    ensures InterpretAll(p, EmptySet, [t0, t1, t2, t3])
      == Interpret(p, Interpret(p, Interpret(p, Interpret(p, EmptySet, t0), t1), t2), t3)
  {
    var s1 := Interpret(p, EmptySet, t0);
    var s2 := Interpret(p, s1, t1);
    var s3 := Interpret(p, s2, t2);
    assert [t0] + [t1, t2, t3] == [t0, t1, t2, t3];
    assert [t1] + [t2, t3] == [t1, t2, t3];
    assert [t2] + [t3] == [t2, t3];
    assert [t3] + [] == [t3];
    InterpretAllCons(p, EmptySet, t0, [t1, t2, t3]);
    InterpretAllCons(p, s1, t1, [t2, t3]);
    InterpretAllCons(p, s2, t2, [t3]);
    InterpretAllCons(p, s3, t3, []);
  }

  // The cases below hold under both readings of the loop, except where a
  // bundle of unary letters is followed by another token.

  /** "cmd --k=v -- file": the option is set, "--" is dropped and both
      other tokens are positional (the LongOption case, with run, user, u1
      and hello.go). */
  lemma LongOption(mode: Mode, cmd: string, k: string, v: string, file: string)
    requires IsPositionalArg(cmd) && IsPositionalArg(file) && '=' !in k && '=' !in v
    ensures Parseable(NewParser(), mode, [cmd, "--" + k + "=" + v, "--", file])
    ensures var fs := ParseFrom(NewParser(), mode, EmptySet, [cmd, "--" + k + "=" + v, "--", file]);
      fs.flags == map[k := v] && fs.posArgs == [cmd, file]
  {
    assert [cmd] + ["--" + k + "=" + v] + ["--"] + [file] == [cmd, "--" + k + "=" + v, "--", file];
    ParseFour(NewParser(), mode, Arg(cmd), Assign(k, v), EndOfOptions, Arg(file));
    var s1 := Interpret(NewParser(), EmptySet, Arg(cmd));
    assert Interpret(NewParser(), s1, Assign(k, v)).flags == map[k := v];
  }

  /** "cmd --k v -- file" for a key that is not unary: v is the option's
      value, not a positional argument, even when v is "-" (the
      LongOptionWithSpace case). */
  lemma LongOptionWithSpace(mode: Mode, cmd: string, k: string, v: string, file: string)
    requires IsPositionalArg(cmd) && IsPositionalArg(file) && '=' !in k && k != ""
    ensures Parseable(NewParser(), mode, [cmd, "--" + k, v, "--", file])
    ensures var fs := ParseFrom(NewParser(), mode, EmptySet, [cmd, "--" + k, v, "--", file]);
      fs.flags == map[k := v] && fs.posArgs == [cmd, file]
  {
    ParseFour(NewParser(), mode, Arg(cmd), Spaced(k, v), EndOfOptions, Arg(file));
    assert [cmd] + ["--" + k, v] + ["--"] + [file] == [cmd, "--" + k, v, "--", file];
  }

  /** "--b x" for a registered unary b: b is "true" and x stays positional
      (the LongOptionWithUnary case). */
  lemma LongOptionWithUnary(mode: Mode, b: string, x: string)
    requires '=' !in b && b != "" && IsPositionalArg(x)
    ensures Parseable(RegisterUnary(NewParser(), b, ""), mode, ["--" + b, x])
    ensures var fs := ParseFrom(RegisterUnary(NewParser(), b, ""), mode, EmptySet, ["--" + b, x]);
      fs.flags == map[b := "true"] && fs.posArgs == [x]
  {
    var p := RegisterUnary(NewParser(), b, "");
    ParseTwo(p, mode, Switch(b), Arg(x));
    assert ["--" + b] + [x] == ["--" + b, x];
  }

  /** A slice key given once as "--k v" and once as "--k=w", with a
      positional argument between: both values, in order (the
      LongOptionSlice case, with nums, 0, alpha and 42). */
  lemma LongOptionSlice(mode: Mode, k: string, short: string, v: string, x: string, w: string)
    requires '=' !in k && k != "" && k != short && IsPositionalArg(x) && '=' !in w
    ensures Parseable(RegisterSlice(NewParser(), k, short), mode, ["--" + k, v, x, "--" + k + "=" + w])
    ensures var fs := ParseFrom(RegisterSlice(NewParser(), k, short), mode, EmptySet, ["--" + k, v, x, "--" + k + "=" + w]);
      fs.slices == map[k := [v, w]] && fs.flags == map[] && fs.posArgs == [x]
  {
    var p := RegisterSlice(NewParser(), k, short);
    ParseThree(p, mode, Spaced(k, v), Arg(x), Assign(k, w));
    assert ["--" + k, v] + [x] + ["--" + k + "=" + w] == ["--" + k, v, x, "--" + k + "=" + w];
    assert k in p.slices;
    var s1 := Interpret(p, EmptySet, Spaced(k, v));
    assert SliceOf(EmptySet, k) == [] && [] + [v] == [v];
    assert s1.slices == map[][k := [v]];
    var s2 := Interpret(p, s1, Arg(x));
    assert s2.slices == s1.slices && s2.posArgs == [x];
    assert SliceOf(s2, k) == [v] && [v] + [w] == [v, w];
  }

  /** "-l x" for a unary letter: l is "true" and x stays positional. */
  lemma ShortSwitchCase(p: Parser, mode: Mode, l: char, x: string)
    requires l != '-' && [l] in p.unaries && IsPositionalArg(x)
    ensures Parseable(p, mode, ["-" + [l], x])
    ensures var fs := ParseFrom(p, mode, EmptySet, ["-" + [l], x]);
      fs.flags == map[[l] := "true"] && fs.posArgs == [x]
  {
    ParseTwo(p, mode, ShortSwitch(l), Arg(x));
    assert ["-" + [l]] + [x] == ["-" + [l], x];
  }

  /** "-rbc" alone with every letter unary: exactly the letters are
      switched on, under either reading, since nothing follows it. */
  lemma ShortBundleCase(p: Parser, mode: Mode, ls: string)
    requires IsBundle(p, ls) && ls !in p.unaries
    ensures Parseable(p, mode, ["-" + ls])
    ensures ParseFrom(p, mode, EmptySet, ["-" + ls]).flags == LettersOn(ls)
  {
    var args := ["-" + ls];
    assert NextOf(args) == None && args[1..] == [];
    assert ReadToken(p, mode, EmptySet, "-" + ls, None) == (BundleOn(p, EmptySet, ls), 1) by {
      ReadBundleToken(p, mode, EmptySet, ls, None);
      BundleMeaning(p, EmptySet, ls);
    }
    assert BundleOn(p, EmptySet, ls).flags == LettersOn(ls);
  }

  /** "-o v" and "-o=v" for a key that is not unary both set o to v. */
  lemma ShortValueCases(p: Parser, mode: Mode, o: char, v: string)
    requires o != '-' && o != '=' && [o] !in p.unaries && [o] !in p.slices && '=' !in v
    ensures Parseable(p, mode, ["-" + [o], v]) && Parseable(p, mode, ["-" + [o] + "=" + v])
    ensures ParseFrom(p, mode, EmptySet, ["-" + [o], v]).flags == map[[o] := v]
    ensures ParseFrom(p, mode, EmptySet, ["-" + [o] + "=" + v]).flags == map[[o] := v]
  {
    ParseToken(p, mode, EmptySet, ShortSpaced([o], v), []);
    assert ["-" + [o], v] + [] == ["-" + [o], v];
    ParseToken(p, mode, EmptySet, ShortAssign([o], v), []);
    assert ["-" + [o] + "=" + v] + [] == ["-" + [o] + "=" + v];
  }

  /** "-k v" for a one-letter key that is not unary reads like "--k v". */
  lemma ParseSpacedShort(p: Parser, mode: Mode, fs: FlagSet, k: string, v: string, rest: seq<string>)
    requires |k| == 1 && k[0] != '-' && k !in p.unaries && Parseable(p, mode, rest)
    ensures Parseable(p, mode, ["-" + k, v] + rest)
    ensures ParseFrom(p, mode, fs, ["-" + k, v] + rest) == ParseFrom(p, mode, AddFlag(p, fs, k, v), rest)
  {
    ParseToken(p, mode, fs, ShortSpaced(k, v), rest);
  }

  /** As written, a bundle that is not itself a unary key takes the token
      after it as its value, even when all of its letters are unary. */
  lemma BundleConsumesNext(p: Parser, fs: FlagSet, ls: string, x: string, rest: seq<string>)
    requires |ls| >= 2 && '=' !in ls && ls[0] != '-' && ls !in p.unaries
    requires Parseable(p, AsWritten, rest)
    ensures Parseable(p, AsWritten, ["-" + ls, x] + rest)
    ensures ParseFrom(p, AsWritten, fs, ["-" + ls, x] + rest)
      == ParseFrom(p, AsWritten, AddFlag(p, SetUnaryLetters(p, fs, ls), ls, x), rest)
  {
    var args := ["-" + ls, x] + rest;
    assert forall i :: 2 <= i < |args| ==> args[i] == rest[i - 2];
    assert ("-" + ls)[1] == ls[0];
    ReadBundleToken(p, AsWritten, fs, ls, Some(x));
    ReadBundleToken(p, AsWritten, EmptySet, ls, Some(x));
    assert args[2..] == rest;
  }

  /** A bundle of unary letters followed by a positional argument: as
      written the argument becomes the value of an option named after the
      whole bundle; with the bundle kept from consuming, it stays
      positional and no such option appears. */
  lemma BundleSwallowsArgument(p: Parser, ls: string, x: string)
    requires IsBundle(p, ls) && ls !in p.unaries && ls !in p.slices && IsPositionalArg(x)
    ensures Parseable(p, AsWritten, ["-" + ls, x]) && Parseable(p, BundleFixed, ["-" + ls, x])
    ensures var fs := ParseAsWritten(p, ["-" + ls, x]);
      fs.posArgs == [] && ls in fs.flags && fs.flags[ls] == x
    ensures var fs := Parse(p, ["-" + ls, x]);
      fs.posArgs == [x] && ls !in fs.flags
  {
    BundleSwallowsAsWritten(p, ls, x);
    BundleKeepsArgument(p, ls, x);
  }

  lemma BundleSwallowsAsWritten(p: Parser, ls: string, x: string)
    requires IsBundle(p, ls) && ls !in p.unaries && ls !in p.slices && IsPositionalArg(x)
    ensures Parseable(p, AsWritten, ["-" + ls, x])
    ensures var fs := ParseAsWritten(p, ["-" + ls, x]);
      fs.posArgs == [] && ls in fs.flags && fs.flags[ls] == x
  {
    assert ["-" + ls, x] == ["-" + ls, x] + [];
    assert Parseable(p, AsWritten, []);
    BundleConsumesNext(p, EmptySet, ls, x, []);
  }

  lemma BundleKeepsArgument(p: Parser, ls: string, x: string)
    requires IsBundle(p, ls) && ls !in p.unaries && ls !in p.slices && IsPositionalArg(x)
    ensures Parseable(p, BundleFixed, ["-" + ls, x])
    ensures var fs := Parse(p, ["-" + ls, x]);
      fs.posArgs == [x] && ls !in fs.flags
  {
    ParseTwo(p, BundleFixed, Bundle(ls), Arg(x));
    assert ["-" + ls] + [x] == ["-" + ls, x];
    assert ls !in Letters(ls) by {
      forall k | k in Letters(ls) ensures |k| == 1 {}
    }
  }
}
