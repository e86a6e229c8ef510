/** Strings: white space, and splitting and joining on one separator character. */
module Text {

  /** Where a text is split into lines. */
  predicate Break(c: char) {
    || c == '\n' || c == '\r' || c == '\U{0B}' || c == '\U{0C}'
    || c == '\U{1C}' || c == '\U{1D}' || c == '\U{1E}' || c == '\U{85}' || c == '\U{2028}' || c == '\U{2029}'
  }

  /** White space, as `str.strip` has it. */
  predicate Space(c: char) {
    || Break(c) || c == ' ' || c == '\t' || c == '\U{1F}' || c == '\U{A0}' || c == '\U{1680}'
    || '\U{2000}' <= c <= '\U{200A}' || c == '\U{202F}' || c == '\U{205F}' || c == '\U{3000}'
  }

  /** The same by code point. */
  lemma SpaceCodes(c: char)
    ensures Space(c) <==> c as int in {0x20, 0x85, 0xA0, 0x1680, 0x2028, 0x2029, 0x202F, 0x205F, 0x3000}
                          || 9 <= c as int <= 13 || 28 <= c as int <= 31 || 0x2000 <= c as int <= 0x200A
    ensures Break(c) <==> c as int in {0x85, 0x2028, 0x2029} || 10 <= c as int <= 13 || 28 <= c as int <= 30
  {
  }

  /** `sep.join(parts)`. */
  function Join(parts: seq<string>, sep: char): string {
    if parts == [] then ""
    else if |parts| == 1 then parts[0]
    else parts[0] + [sep] + Join(parts[1..], sep)
  }

  /** `s.split(sep)`: always at least one part. */
  function Split(s: string, sep: char): (parts: seq<string>)
    ensures |parts| >= 1
    ensures forall part <- parts :: sep !in part
  {
    if s == "" then [""]
    else
      var rest := Split(s[1..], sep);
      if s[0] == sep then [""] + rest
      else [[s[0]] + rest[0]] + rest[1..]
  }

  /** The components `pathlib` keeps of a path's parts. */
  function KeepParts(parts: seq<string>): seq<string> {
    if parts == [] then []
    else (if parts[0] == "" || parts[0] == "." then [] else [parts[0]]) + KeepParts(parts[1..])
  }

  ghost predicate Free(parts: seq<string>, sep: char) {
    forall part <- parts :: sep !in part
  }

  /** Splitting a part followed by a separator peels that part off. */
  lemma {:induction false} SplitPeels(part: string, rest: string, sep: char)
    requires sep !in part
    ensures Split(part + [sep] + rest, sep) == [part] + Split(rest, sep)
    decreases |part|
  {
    var whole := part + [sep] + rest;
    if part == "" {
      assert whole == [sep] + rest;
      assert whole[1..] == rest;
    } else {
      assert whole[1..] == part[1..] + [sep] + rest;
      SplitPeels(part[1..], rest, sep);
      assert [part[0]] + part[1..] == part;
    }
  }

  lemma {:induction false} SplitWhole(part: string, sep: char)
    requires sep !in part
    ensures Split(part, sep) == [part]
  {
    if part != "" {
      SplitWhole(part[1..], sep);
      assert [part[0]] + part[1..] == part;
    }
  }

  /** Split undoes Join on separator-free parts. */
  lemma {:induction false} SplitJoin(parts: seq<string>, sep: char)
    requires parts != [] && Free(parts, sep)
    ensures Split(Join(parts, sep), sep) == parts
  {
    if |parts| == 1 {
      SplitWhole(parts[0], sep);
    } else {
      SplitPeels(parts[0], Join(parts[1..], sep), sep);
      SplitJoin(parts[1..], sep);
    }
  }

  /** So joining loses nothing: equal joins have equal separator-free parts. */
  lemma JoinInjective(a: seq<string>, b: seq<string>, sep: char)
    requires a != [] && b != [] && Free(a, sep) && Free(b, sep)
    requires Join(a, sep) == Join(b, sep)
    ensures a == b
  {
    SplitJoin(a, sep);
    SplitJoin(b, sep);
  }

  /** Join undoes Split on every string. */
  lemma {:induction false} JoinSplit(s: string, sep: char)
    ensures Join(Split(s, sep), sep) == s
  {
    if s != "" {
      var rest := Split(s[1..], sep);
      JoinSplit(s[1..], sep);
      if s[0] == sep {
        assert ([""] + rest)[1..] == rest;
      } else {
        var parts := [[s[0]] + rest[0]] + rest[1..];
        assert parts[1..] == rest[1..];
        if |rest| > 1 {
          assert Join(parts, sep) == [s[0]] + (rest[0] + [sep] + Join(rest[1..], sep));
        }
      }
    }
  }

  // ---- a path's parts

  lemma {:induction false} KeptParts(parts: seq<string>, part: string)
    requires part != "" && part != "."
    ensures part in KeepParts(parts) <==> part in parts
  {
    if parts != [] {
      assert parts == [parts[0]] + parts[1..];
      KeptParts(parts[1..], part);
    }
  }

  lemma {:induction false} SplitAppends(dir: string, name: string)
    requires '/' !in name
    ensures Split(dir + ['/'] + name, '/') == Split(dir, '/') + [name]
  {
    SplitWhole(name, '/');
    if dir == "" {
      SplitPeels("", name, '/');
      assert "" + ['/'] + name == dir + ['/'] + name;
    } else {
      var whole := dir + ['/'] + name;
      assert whole[0] == dir[0] && whole[1..] == dir[1..] + ['/'] + name;
      SplitAppends(dir[1..], name);
      var rest := Split(dir[1..], '/');
      assert (rest + [name])[0] == rest[0] && (rest + [name])[1..] == rest[1..] + [name];
    }
  }

  lemma {:induction false} KeepAppends(parts: seq<string>, name: string)
    ensures KeepParts(parts + [name]) == KeepParts(parts) + if name == "" || name == "." then [] else [name]
  {
    if parts == [] {
      assert [] + [name] == [name] && [name][1..] == [];
    } else {
      assert (parts + [name])[0] == parts[0] && (parts + [name])[1..] == parts[1..] + [name];
      KeepAppends(parts[1..], name);
    }
  }
}
