/**
 * Package names: which names are valid, the name of the class a package file defines, and the
 * process-wide memo of package instances.
 */
module Packages {
  import opened Wrappers
  import opened Text
  import Versions

  datatype PackageError = InvalidPackageName(name: string)

  // ---------------------------------------------------------------------------------------
  // Valid names
  // ---------------------------------------------------------------------------------------

  /** `\w` in a byte-string pattern: an ASCII letter, a digit or '_'. */
  predicate IsWordChar(c: char)
  {
    ('a' <= c <= 'z') || ('A' <= c <= 'Z') || ('0' <= c <= '9') || c == '_'
  }

  /** `[\w-]`. */
  predicate IsNameChar(c: char)
  {
    IsWordChar(c) || c == '-'
  }

  /** `[_-]`. */
  predicate IsJoiner(c: char)
  {
    c == '_' || c == '-'
  }

  /** The whole of `s` is `\w[\w-]*`. */
  predicate IsNameBody(s: string)
  {
    |s| > 0 && IsWordChar(s[0]) && forall i :: 1 <= i < |s| ==> IsNameChar(s[i])
  }

  /** `re.search(r'[_-][_-]+', s)`: two joiners in a row somewhere. */
  predicate HasDoubledJoiner(s: string)
  {
    exists i :: 0 <= i < |s| - 1 && IsJoiner(s[i]) && IsJoiner(s[i + 1])
  }

  /**
   * `re.match(r'^\w[\w-]*$', s)` as Python evaluates it: `$` matches at the end of the text
   * and also just before a newline that ends the text.
   */
  predicate MatchesValidPatternAsWritten(s: string)
  {
    IsNameBody(s) || (|s| > 0 && s[|s| - 1] == '\n' && IsNameBody(s[..|s| - 1]))
  }

  /**
   * `valid_package_name` as written, with the newline that `$` lets through: the name starts
   * with a word character, and every character is a name character except that the last may
   * be a newline.
   */
  predicate ValidPackageNameAsWritten(name: string): (r: bool)
    ensures r ==> |name| > 0 && IsWordChar(name[0])
    ensures r ==> forall i :: 0 <= i < |name| ==> IsNameChar(name[i]) || (i == |name| - 1 && name[i] == '\n')
  {
    MatchesValidPatternAsWritten(name) && !HasDoubledJoiner(name)
  }

  /**
   * `valid_package_name` as intended: the whole name is `\w[\w-]*` with no doubled joiner, which
   * is the check as written on names without a newline.
   */
  predicate ValidPackageName(name: string): (r: bool)
    ensures r <==> ValidPackageNameAsWritten(name) && '\n' !in name
  {
    IsNameBody(name) && !HasDoubledJoiner(name)
  }

  /** The as-written check accepts a valid name followed by one newline, and nothing else extra. */
  lemma AsWrittenAcceptsTrailingNewline(name: string)
    ensures ValidPackageNameAsWritten(name) <==>
      ValidPackageName(name) || (|name| > 0 && name[|name| - 1] == '\n' && ValidPackageName(name[..|name| - 1]))
  {
    if |name| > 0 && name[|name| - 1] == '\n' {
      var body := name[..|name| - 1];
      if HasDoubledJoiner(body) {
        var i :| 0 <= i < |body| - 1 && IsJoiner(body[i]) && IsJoiner(body[i + 1]);
        assert IsJoiner(name[i]) && IsJoiner(name[i + 1]);
      }
      if HasDoubledJoiner(name) && IsNameBody(body) {
        var i :| 0 <= i < |name| - 1 && IsJoiner(name[i]) && IsJoiner(name[i + 1]);
        assert i + 1 < |name| - 1;
        assert IsJoiner(body[i]) && IsJoiner(body[i + 1]);
      }
    }
  }

  /** The concrete witness: "abc\n" passes the as-written check but is not a valid name. */
  lemma NewlineNameAsWritten()
    ensures ValidPackageNameAsWritten("abc\n")
    ensures !ValidPackageName("abc\n")
  {
    assert "abc\n"[..3] == "abc";
    assert !IsNameChar("abc\n"[3]);
  }

  /** Every character of a valid name is a letter, a digit, '_' or '-', and it never starts with '-'. */
  lemma ValidNameCharacters(name: string)
    requires ValidPackageName(name)
    ensures |name| > 0 && name[0] != '-' && IsWordChar(name[0])
    ensures forall i :: 0 <= i < |name| ==> IsNameChar(name[i])
  {
  }

  /** A name holding two joiners in a row is never valid. */
  lemma DoubledJoinerInvalid(name: string, i: int)
    requires 0 <= i < |name| - 1 && IsJoiner(name[i]) && IsJoiner(name[i + 1])
    ensures !ValidPackageName(name)
  {
  }

  /** `validate_package_name` as written: an error exactly when the as-written check refuses the name. */
  function ValidatePackageNameAsWritten(name: string): (r: Result<(), PackageError>)
    ensures r.Err? <==> !ValidPackageNameAsWritten(name)
    ensures r.Err? ==> r.error == InvalidPackageName(name)
  {
    if ValidPackageNameAsWritten(name) then Ok(()) else Err(InvalidPackageName(name))
  }

  /** `validate_package_name`: an error exactly when the name is not valid, and nothing otherwise. */
  function ValidatePackageName(name: string): (r: Result<(), PackageError>)
    ensures r.Err? <==> !ValidPackageName(name)
    ensures r.Err? ==> r.error == InvalidPackageName(name)
  {
    if ValidPackageName(name) then Ok(()) else Err(InvalidPackageName(name))
  }

  // ---------------------------------------------------------------------------------------
  // Class names
  // ---------------------------------------------------------------------------------------

  function Upper(c: char): char
  {
    if 'a' <= c <= 'z' then (c as int - 32) as char else c
  }

  function Lower(c: char): char
  {
    if 'A' <= c <= 'Z' then (c as int + 32) as char else c
  }

  function LowerAll(s: string): (r: string)
    ensures |r| == |s| && forall i :: 0 <= i < |s| ==> r[i] == Lower(s[i])
  {
    if s == [] then [] else [Lower(s[0])] + LowerAll(s[1..])
  }

  /** `str.capitalize`: the first character upper case, the rest lower case. */
  function Capitalize(w: string): (r: string)
    ensures |r| == |w| && (w != [] ==> r[0] == Upper(w[0]))
    ensures forall i :: 0 < i < |w| ==> r[i] == Lower(w[i])
  {
    if w == [] then [] else [Upper(w[0])] + LowerAll(w[1..])
  }

  function CapitalizeAll(parts: seq<string>): (r: seq<string>)
    ensures |r| == |parts| && forall i :: 0 <= i < |parts| ==> r[i] == Capitalize(parts[i])
  {
    if parts == [] then [] else [Capitalize(parts[0])] + CapitalizeAll(parts[1..])
  }

  /**
   * `string.capwords(s, sep)`: split on `sep`, capitalise every piece, join with `sep`. It is the
   * character-by-character walk `CapitalizeRun` below.
   */
  function CapWords(s: string, sep: char): (r: string)
    ensures r == CapitalizeRun(s, sep, true)
  {
    SplitJoin(s, sep);
    JoinCapitalized(Split(s, sep), sep);
    Join(CapitalizeAll(Split(s, sep)), sep)
  }

  /** `s.replace('_', '-')`. */
  function UnderscoresToDashes(s: string): (r: string)
    ensures |r| == |s| && forall i :: 0 <= i < |s| ==> r[i] == (if s[i] == '_' then '-' else s[i])
  {
    if s == [] then [] else [if s[0] == '_' then '-' else s[0]] + UnderscoresToDashes(s[1..])
  }

  /**
   * The class name made from a name: '_' turned into '-' and every '-'-separated piece
   * capitalised, with "Num_" in front when that starts with a digit. It is as long as the name,
   * plus four for a name that starts with a digit.
   */
  function ClassNameOf(name: string): (c: string)
    ensures |c| == |name| + (if |name| > 0 && Versions.IsDigit(name[0]) then 4 else 0)
  {
    var className := CapWords(UnderscoresToDashes(name), '-');
    if |name| > 0 then CapitalizedNameAt(name, 0);
      if |className| > 0 && Versions.IsDigit(className[0]) then "Num_" + className else className
    else className
  }

  /**
   * `class_name_for_package_name`: an invalid name is refused, with that name, before anything
   * else; a valid name gives its class name.
   */
  function ClassNameForPackageName(name: string): (r: Result<string, PackageError>)
    ensures r.Err? <==> !ValidPackageName(name)
    ensures r.Err? ==> r.error == InvalidPackageName(name)
    ensures r.Ok? ==> |r.value| == |name| + (if Versions.IsDigit(name[0]) then 4 else 0)
  {
    match ValidatePackageName(name)
    case Err(e) => Err(e)
    case Ok(_) => Ok(ClassNameOf(name))
  }

  /** `class_name_for_package_name` as written, on the as-written check. */
  function ClassNameForPackageNameAsWritten(name: string): (r: Result<string, PackageError>)
    ensures r.Err? <==> !ValidPackageNameAsWritten(name)
    ensures r.Err? ==> r.error == InvalidPackageName(name)
  {
    match ValidatePackageNameAsWritten(name)
    case Err(e) => Err(e)
    case Ok(_) => Ok(ClassNameOf(name))
  }

  /** The concrete witness carried through: as written, "abc\n" gets the class name "Abc\n". */
  lemma NewlineClassNameAsWritten()
    ensures ClassNameForPackageNameAsWritten("abc\n") == Ok("Abc\n")
    ensures ClassNameForPackageName("abc\n") == Err(InvalidPackageName("abc\n"))
  {
    NewlineNameAsWritten();
    NewlineClassName();
  }

  lemma NewlineClassName()
    ensures ClassNameOf("abc\n") == "Abc\n"
  {
    var name := "abc\n";
    var d := UnderscoresToDashes(name);
    assert d == name by {
      assert |d| == |name|;
      forall i | 0 <= i < |name|
        ensures d[i] == name[i]
      {
      }
    }
    NewlineRun();
  }

  lemma NewlineRun()
    ensures CapitalizeRun("abc\n", '-', true) == "Abc\n"
  {
    assert CapitalizeRun("\n", '-', false) == "\n";
    assert "c\n"[1..] == "\n";
    assert CapitalizeRun("c\n", '-', false) == "c\n";
    assert "bc\n"[1..] == "c\n";
    assert CapitalizeRun("bc\n", '-', false) == "bc\n";
    assert "abc\n"[1..] == "bc\n";
  }

  // ---------------------------------------------------------------------------------------
  // What the class name looks like, character by character
  // ---------------------------------------------------------------------------------------

  /**
   * The reference reading of `capwords`: walking the text, a separator is kept, a character
   * right after a separator (or at the start) is upper-cased, and any other is lower-cased.
   */
  function CapitalizeRun(s: string, sep: char, atStart: bool): (r: string)
    ensures |r| == |s|
  {
    if s == [] then []
    else if s[0] == sep then [sep] + CapitalizeRun(s[1..], sep, true)
    else [if atStart then Upper(s[0]) else Lower(s[0])] + CapitalizeRun(s[1..], sep, false)
  }

  lemma {:induction false} CapitalizeRunLower(w: string, sep: char, t: string)
    requires sep !in w
    ensures CapitalizeRun(w + t, sep, false) == LowerAll(w) + CapitalizeRun(t, sep, false)
  {
    if w != [] {
      assert (w + t)[0] == w[0] && w[0] != sep;
      assert (w + t)[1..] == w[1..] + t;
      assert sep !in w[1..] by {
        assert forall x :: x in w[1..] ==> x in w;
      }
      CapitalizeRunLower(w[1..], sep, t);
      calc {
        CapitalizeRun(w + t, sep, false);
        [Lower(w[0])] + CapitalizeRun(w[1..] + t, sep, false);
        [Lower(w[0])] + (LowerAll(w[1..]) + CapitalizeRun(t, sep, false));
        ([Lower(w[0])] + LowerAll(w[1..])) + CapitalizeRun(t, sep, false);
      }
    } else {
      assert w + t == t;
    }
  }

  /** A separator-free piece followed by a separator (or by nothing) comes out capitalised. */
  lemma CapitalizeRunPiece(w: string, sep: char, t: string)
    requires sep !in w && (t == [] || t[0] == sep)
    ensures CapitalizeRun(w + t, sep, true) == Capitalize(w) + CapitalizeRun(t, sep, true)
  {
    if w != [] {
      assert (w + t)[0] == w[0] && w[0] != sep;
      assert (w + t)[1..] == w[1..] + t;
      assert sep !in w[1..] by {
        assert forall x :: x in w[1..] ==> x in w;
      }
      CapitalizeRunLower(w[1..], sep, t);
      assert CapitalizeRun(t, sep, false) == CapitalizeRun(t, sep, true);
      calc {
        CapitalizeRun(w + t, sep, true);
        [Upper(w[0])] + CapitalizeRun(w[1..] + t, sep, false);
        [Upper(w[0])] + (LowerAll(w[1..]) + CapitalizeRun(t, sep, false));
        ([Upper(w[0])] + LowerAll(w[1..])) + CapitalizeRun(t, sep, true);
      }
    } else {
      assert w + t == t;
    }
  }

  lemma {:induction false} JoinCapitalized(parts: seq<string>, sep: char)
    requires |parts| >= 1 && forall i :: 0 <= i < |parts| ==> sep !in parts[i]
    ensures Join(CapitalizeAll(parts), sep) == CapitalizeRun(Join(parts, sep), sep, true)
    decreases |parts|, 1
  {
    if |parts| == 1 {
      CapitalizeRunPiece(parts[0], sep, []);
      assert parts[0] + [] == parts[0];
    } else {
      JoinCapitalizedStep(parts, sep);
    }
  }

  /** The inductive step of the lemma above: the first piece, its separator, then the rest. */
  lemma {:induction false} JoinCapitalizedStep(parts: seq<string>, sep: char)
    requires |parts| > 1 && forall i :: 0 <= i < |parts| ==> sep !in parts[i]
    ensures Join(CapitalizeAll(parts), sep) == CapitalizeRun(Join(parts, sep), sep, true)
    decreases |parts|, 0
  {
    var rest := Join(parts[1..], sep);
    assert forall i :: 0 <= i < |parts[1..]| ==> parts[1..][i] == parts[i + 1];
    JoinCapitalized(parts[1..], sep);
    CapitalizeFirstPiece(parts[0], sep, rest);
    JoinFirst(parts, sep);
    JoinFirst(CapitalizeAll(parts), sep);
  }

  lemma JoinFirst(parts: seq<string>, sep: char)
    requires |parts| > 1
    ensures Join(parts, sep) == parts[0] + ([sep] + Join(parts[1..], sep))
  {
  }

  /** A first piece and its separator, capitalised. */
  lemma CapitalizeFirstPiece(w: string, sep: char, rest: string)
    requires sep !in w
    ensures CapitalizeRun(w + ([sep] + rest), sep, true) == Capitalize(w) + ([sep] + CapitalizeRun(rest, sep, true))
  {
    CapitalizeRunPiece(w, sep, [sep] + rest);
    assert ([sep] + rest)[1..] == rest;
  }

  /** Character `i` of the walk depends only on character `i` and the one before it. */
  lemma {:induction false} CapitalizeRunAt(s: string, sep: char, atStart: bool, i: int)
    requires 0 <= i < |s|
    ensures CapitalizeRun(s, sep, atStart)[i] ==
      if s[i] == sep then sep
      else if (if i == 0 then atStart else s[i - 1] == sep) then Upper(s[i])
      else Lower(s[i])
  {
    if i > 0 {
      CapitalizeRunAt(s[1..], sep, s[0] == sep, i - 1);
    }
  }

  /**
   * Character by character, the capitalised name keeps the length of the package name, turns
   * every '_' and '-' into '-', upper-cases the first character and every character after a
   * '_' or '-', and lower-cases every other character.
   */
  lemma CapitalizedNameAt(name: string, i: int)
    requires 0 <= i < |name|
    ensures |CapWords(UnderscoresToDashes(name), '-')| == |name|
    ensures CapWords(UnderscoresToDashes(name), '-')[i] ==
      if IsJoiner(name[i]) then '-'
      else if i == 0 || IsJoiner(name[i - 1]) then Upper(name[i])
      else Lower(name[i])
  {
    var d := UnderscoresToDashes(name);
    CapitalizeRunAt(d, '-', true, i);
  }

  /**
   * The class name of a valid package name: "Num_" comes first exactly when the name starts
   * with a digit, and what follows is the capitalised name.
   */
  lemma ClassNameShape(name: string)
    requires ValidPackageName(name)
    ensures ClassNameForPackageName(name).Ok?
    ensures var c := CapWords(UnderscoresToDashes(name), '-');
      ClassNameForPackageName(name).value == (if Versions.IsDigit(name[0]) then "Num_" + c else c)
  {
    CapitalizedNameAt(name, 0);
  }

  /** A class name holds no '_' apart from the one in a "Num_" prefix. */
  lemma ClassNameHasNoUnderscore(name: string)
    requires ValidPackageName(name)
    ensures var c := CapWords(UnderscoresToDashes(name), '-');
      (forall i :: 0 <= i < |c| ==> c[i] != '_') &&
      ClassNameForPackageName(name).value[|ClassNameForPackageName(name).value| - |c|..] == c
  {
    var c := CapWords(UnderscoresToDashes(name), '-');
    CapitalizedNameAt(name, 0);
    forall i | 0 <= i < |c|
      ensures c[i] != '_'
    {
      CapitalizedNameAt(name, i);
    }
    ClassNameShape(name);
  }

  // ---------------------------------------------------------------------------------------
  // The instance memo
  // ---------------------------------------------------------------------------------------

  /**
   * The memo step of `get`: a spec already present returns its instance and changes nothing;
   * otherwise the instance is built, recorded and returned; when building fails the memo is
   * left as it was.
   */
  function Memo<K, V, E>(instances: map<K, V>, spec: K, build: K -> Result<V, E>): (m: (map<K, V>, Result<V, E>))
    ensures forall k :: k in instances ==> k in m.0 && m.0[k] == instances[k]
    ensures forall k :: k in m.0 ==> k in instances || k == spec
    ensures m.1.Ok? <==> spec in m.0
    ensures m.1.Ok? ==> m.1.value == m.0[spec]
    ensures spec in instances ==> m == (instances, Ok(instances[spec]))
    ensures spec !in instances && build(spec).Ok? ==>
      m.0 == instances[spec := build(spec).value] && m.1 == build(spec)
    ensures spec !in instances && build(spec).Err? ==> m == (instances, build(spec))
  {
    if spec in instances then (instances, Ok(instances[spec]))
    else
      match build(spec)
      case Err(e) => (instances, Err(e))
      case Ok(v) => (instances[spec := v], Ok(v))
  }

  /** An instance is built at most once: a second lookup changes nothing and returns the same. */
  lemma MemoIdempotent<K, V, E>(instances: map<K, V>, spec: K, build: K -> Result<V, E>)
    requires Memo(instances, spec, build).1.Ok?
    ensures var (after, r) := Memo(instances, spec, build);
      Memo(after, spec, build) == (after, r)
  {
  }

  /** The memo of the running process. */
  class Registry<K(==), V> {
    var instances: map<K, V>

    constructor()
      ensures instances == map[]
    {
      instances := map[];
    }

    /** `get`: look the spec up, building and recording its instance the first time. */
    method Get<E>(spec: K, build: K -> Result<V, E>) returns (r: Result<V, E>)
      modifies this
      ensures (instances, r) == Memo(old(instances), spec, build)
      ensures forall k :: k in old(instances) ==> k in instances && instances[k] == old(instances)[k]
      ensures r.Ok? ==> spec in instances && r.value == instances[spec]
    {
      if spec !in instances {
        var built := build(spec);
        if built.Err? {
          return Err(built.error);
        }
        instances := instances[spec := built.value];
      }
      r := Ok(instances[spec]);
    }
  }
}
