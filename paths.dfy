/**
 * POSIX paths as Python's `pathlib.PurePosixPath` (3.12) represents them: a
 * flag for a leading `/` and the list of non-empty components, `.` dropped.
 */
module Paths {
  import opened Wrappers
  import opened Text

  datatype Path = Path(rooted: bool, parts: seq<string>)

  /** A component as pathlib keeps it: not empty, not `.`, no separator. */
  predicate IsPart(s: string) {
    s != "" && s != "." && '/' !in s
  }

  predicate WellFormed(p: Path) {
    forall i :: 0 <= i < |p.parts| ==> IsPart(p.parts[i])
  }

  /** `s.split('/')`. */
  function Split(s: string): (r: seq<string>)
    ensures |r| >= 1
  {
    if s == [] then [""]
    else if s[0] == '/' then [""] + Split(s[1..])
    else var t := Split(s[1..]); [[s[0]] + t[0]] + t[1..]
  }

  function KeepParts(raw: seq<string>): seq<string> {
    if raw == [] then []
    else (if IsPart(raw[0]) then [raw[0]] else []) + KeepParts(raw[1..])
  }

  /** `PurePosixPath(s)`. */
  function Parse(s: string): (p: Path)
    ensures WellFormed(p)
  {
    KeepPartsWellFormed(Split(s));
    Path(|s| > 0 && s[0] == '/', KeepParts(Split(s)))
  }

  lemma {:induction false} KeepPartsWellFormed(raw: seq<string>)
    ensures forall i :: 0 <= i < |KeepParts(raw)| ==> IsPart(KeepParts(raw)[i])
  {
    if raw != [] { KeepPartsWellFormed(raw[1..]); }
  }

  function Join(parts: seq<string>): string {
    if parts == [] then ""
    else if |parts| == 1 then parts[0]
    else parts[0] + "/" + Join(parts[1..])
  }

  /** `str(p)`. */
  function Str(p: Path): string {
    if p.rooted then "/" + Join(p.parts)
    else if p.parts == [] then "."
    else Join(p.parts)
  }

  /** `repr(p)`, leaving quote escaping out. */
  function Repr(p: Path): string {
    "PosixPath('" + Str(p) + "')"
  }

  /** `p.name`: the final component, or "" when there is none. */
  function Name(p: Path): string {
    if p.parts == [] then "" else p.parts[|p.parts| - 1]
  }

  /** `len(p.parts)`: a leading `/` is a part of its own. */
  function PartCount(p: Path): nat {
    |p.parts| + if p.rooted then 1 else 0
  }

  /** `PurePosixPath(name).suffix` for a final component `name`. */
  function Suffix(name: string): (r: string)
    ensures r == "" || (r[0] == '.' && '.' !in r[1..])
  {
    var i := RFind(name, '.');
    if 0 < i < |name| - 1 then name[i..] else ""
  }

  /** The final component without its suffix. */
  function Stem(name: string): string {
    name[..|name| - |Suffix(name)|]
  }

  /** `p.with_suffix(sfx)`, with the `ValueError`s it raises (the suffix quoted plainly, without `%r`'s escaping). */
  function WithSuffix(p: Path, sfx: string): Result<Path> {
    if '/' in sfx || (sfx != "" && sfx[0] != '.') || sfx == "." then
      Err("Invalid suffix '" + sfx + "'")
    else if Name(p) == "" then
      Err(Repr(p) + " has an empty name")
    else
      Ok(Path(p.rooted, p.parts[..|p.parts| - 1] + [Stem(Name(p)) + sfx]))
  }

  // ---------------------------------------------------------------------
  // Parse and Str are inverse on well-formed paths.

  lemma {:induction false} SplitNoSeparator(a: string)
    requires '/' !in a
    ensures Split(a) == [a]
  {
    if a != [] {
      SplitNoSeparator(a[1..]);
      assert a == [a[0]] + a[1..];
    }
  }

  lemma {:induction false} SplitAtSeparator(x: string, y: string)
    ensures Split(x + "/" + y) == Split(x) + Split(y)
  {
    if x == [] {
      assert x + "/" + y == "/" + y;
      assert ("/" + y)[1..] == y;
    } else {
      assert (x + "/" + y)[0] == x[0];
      assert (x + "/" + y)[1..] == x[1..] + "/" + y;
      SplitAtSeparator(x[1..], y);
    }
  }

  lemma {:induction false} SplitJoin(parts: seq<string>)
    requires parts != []
    requires forall i :: 0 <= i < |parts| ==> '/' !in parts[i]
    ensures Split(Join(parts)) == parts
  {
    if |parts| == 1 {
      SplitNoSeparator(parts[0]);
    } else {
      SplitJoin(parts[1..]);
      SplitAtSeparator(parts[0], Join(parts[1..]));
      SplitNoSeparator(parts[0]);
      assert parts == [parts[0]] + parts[1..];
    }
  }

  lemma {:induction false} KeepAllParts(parts: seq<string>)
    requires forall i :: 0 <= i < |parts| ==> IsPart(parts[i])
    ensures KeepParts(parts) == parts
  {
    if parts != [] {
      KeepAllParts(parts[1..]);
      assert parts == [parts[0]] + parts[1..];
    }
  }

  /** `PurePosixPath(str(p)) == p`: converting a path to text and parsing it back is lossless. */
  lemma ParseStr(p: Path)
    requires WellFormed(p)
    ensures Parse(Str(p)) == p
  {
    var s := Str(p);
    if p.parts == [] {
      if p.rooted {
        assert s == "/" && Split(s) == ["", ""];
      } else {
        assert s == "." && s[1..] == "" && Split(s[1..]) == [""];
        assert s[0] != '/' && ['.'] + "" == "." && [""][1..] == [];
        assert Split(s) == ["."];
      }
    } else {
      SplitJoin(p.parts);
      KeepAllParts(p.parts);
      assert Join(p.parts)[0] == p.parts[0][0] by {
        if |p.parts| > 1 {
          assert Join(p.parts) == p.parts[0] + ("/" + Join(p.parts[1..]));
        }
      }
      if p.rooted {
        assert s[1..] == Join(p.parts);
        assert Split(s) == [""] + p.parts;
        assert KeepParts(Split(s)) == KeepParts(p.parts);
      }
    }
  }

  // ---------------------------------------------------------------------
  // with_suffix.

  /** `with_suffix('.' + t)` fails exactly on an empty `t`, a `t` holding a separator, or a path without a name. */
  lemma WithSuffixFails(p: Path, t: string)
    ensures WithSuffix(p, "." + t).Err? <==> t == "" || '/' in t || Name(p) == ""
  {
    assert '/' in "." + t <==> '/' in t;
  }

  lemma {:induction false} SuffixOfExtended(stem: string, t: string)
    requires stem != [] && t != [] && '.' !in t
    ensures Suffix(stem + "." + t) == "." + t
    ensures Stem(stem + "." + t) == stem
  {
    var name := stem + "." + t;
    RFindSkipsTail(stem + ".", t, '.');
    assert name == (stem + ".") + t;
    assert RFind(stem + ".", '.') == |stem|;
    assert name[|stem|..] == "." + t;
  }

  lemma StemNonEmpty(name: string)
    requires name != ""
    ensures Stem(name) != ""
  {
  }

  /** A path that `with_suffix('.' + t)` leaves as it is already has the suffix `.t`. */
  lemma WithSuffixFixed(p: Path, t: string)
    requires t != "" && '/' !in t && '.' !in t
    requires WithSuffix(p, "." + t) == Ok(p)
    ensures Suffix(Name(p)) == "." + t
  {
    var n := Name(p);
    StemNonEmpty(n);
    assert n == Stem(n) + ("." + t);
    assert Stem(n) + ("." + t) == Stem(n) + "." + t;
    SuffixOfExtended(Stem(n), t);
  }

  /**
   * The path `with_suffix('.' + t)` returns has the same parent, the same
   * stem, and `.` + t as its suffix, so replacing the suffix again changes
   * nothing.
   */
  lemma {:induction false} WithSuffixReplaces(p: Path, t: string)
    requires WellFormed(p) && Name(p) != ""
    requires t != "" && '/' !in t && '.' !in t
    ensures WithSuffix(p, "." + t).Ok?
    ensures var q := WithSuffix(p, "." + t).value;
      && WellFormed(q)
      && q.rooted == p.rooted
      && |q.parts| == |p.parts|
      && q.parts[..|q.parts| - 1] == p.parts[..|p.parts| - 1]
      && Stem(Name(q)) == Stem(Name(p))
      && Suffix(Name(q)) == "." + t
      && WithSuffix(q, "." + t) == Ok(q)
  {
    var stem := Stem(Name(p));
    var name := stem + "." + t;
    var init := p.parts[..|p.parts| - 1];
    var q := Path(p.rooted, init + [name]);
    assert WithSuffix(p, "." + t) == Ok(q) by {
      assert stem + ("." + t) == name;
      assert '/' !in "." + t;
      WithSuffixFails(p, t);
    }
    assert Suffix(name) == "." + t && Stem(name) == stem && IsPart(name) by {
      StemNonEmpty(Name(p));
      SuffixOfExtended(stem, t);
      assert '/' !in Name(p);
      assert forall k :: 0 <= k < |stem| ==> stem[k] == Name(p)[k];
      assert |name| >= 2;
    }
    assert Name(q) == name;
    assert q.parts[..|q.parts| - 1] == init;
    assert WellFormed(q) by {
      forall i | 0 <= i < |q.parts|
        ensures IsPart(q.parts[i])
      {
        if i < |init| {
          assert q.parts[i] == p.parts[i];
        }
      }
    }
    assert WithSuffix(q, "." + t) == Ok(q) by {
      assert stem + ("." + t) == name;
      assert '/' !in "." + t;
      WithSuffixFails(q, t);
    }
  }
}
