/** The editor of `personas.yaml`: it rewrites the `model:` and `fallback:` lines
    of the named personas, in place, and touches no other line. */
module Personas {
  import opened Wrappers
  import opened Text

  // ---- lines

  predicate Unbroken(s: string) { forall c <- s :: !Break(c) }

  function FirstBreak(s: string): (i: nat)
    ensures i <= |s| && Unbroken(s[..i]) && (i < |s| ==> Break(s[i]))
  {
    if s == "" || Break(s[0]) then 0
    else
      var i := 1 + FirstBreak(s[1..]);
      assert s[..i] == [s[0]] + s[1..][..i - 1];
      i
  }

  /** `splitlines`: a carriage return and a newline make one break. */
  function Lines(text: string): seq<string>
    decreases |text|
  {
    if text == "" then []
    else
      var i := FirstBreak(text);
      if i == |text| then [text]
      else [text[..i]] + Lines(text[i + (if text[i] == '\r' && i + 1 < |text| && text[i + 1] == '\n' then 2 else 1)..])
  }

  function Render(lines: seq<string>): string {
    if |lines| <= 1 then (if lines == [] then "" else lines[0]) + "\n"
    else lines[0] + "\n" + Render(lines[1..])
  }

  lemma {:induction false} LinesAreUnbroken(text: string)
    ensures forall l <- Lines(text) :: Unbroken(l)
    decreases |text|
  {
    if text != "" {
      var i := FirstBreak(text);
      assert Unbroken(text[..i]);
      if i == |text| {
        assert text[..i] == text;
      } else {
        LinesAreUnbroken(text[i + (if text[i] == '\r' && i + 1 < |text| && text[i + 1] == '\n' then 2 else 1)..]);
      }
    }
  }

  lemma FirstBreakOf(head: string, c: char, rest: string)
    requires Unbroken(head) && Break(c)
    ensures FirstBreak(head + [c] + rest) == |head|
  {
    var s := head + [c] + rest;
    var i := FirstBreak(s);
    assert s[|head|] == c;
    assert forall k | 0 <= k < i :: s[k] == s[..i][k] && s[k] in s[..i];
    assert forall k | 0 <= k < |head| :: s[k] == head[k] && head[k] in head;
  }

  /** A line whose only break, if any, is one carriage return at its end: joined
      with a newline it makes a single break. */
  predicate Settles(s: string) {
    forall i | 0 <= i < |s| && Break(s[i]) :: i == |s| - 1 && s[i] == '\r'
  }

  function Chomp(line: string): string {
    if line != "" && line[|line| - 1] == '\r' then line[..|line| - 1] else line
  }

  ghost function Chomped(lines: seq<string>): seq<string> {
    seq(|lines|, i requires 0 <= i < |lines| => Chomp(lines[i]))
  }

  lemma ChompUnbroken(line: string)
    requires Settles(line)
    ensures Unbroken(Chomp(line)) && (Unbroken(line) ==> Chomp(line) == line)
  {
    var c := Chomp(line);
    forall i | 0 <= i < |c| ensures !Break(c[i]) { assert c[i] == line[i]; }
    if line != "" && line[|line| - 1] == '\r' { assert line[|line| - 1] in line; }
  }

  /** One step of the split, at a break of the given width. */
  lemma {:induction false} OneLine(head: string, sep: string, tail: string)
    requires Unbroken(head) && sep in ["\n", "\r\n"]
    ensures Lines(head + sep + tail) == [head] + Lines(tail)
  {
    var text := head + sep + tail;
    assert text == head + [sep[0]] + (sep[1..] + tail);
    FirstBreakOf(head, sep[0], sep[1..] + tail);
    assert text[|head|] == sep[0] && text[..|head|] == head && text[|head| + |sep|..] == tail;
    if |sep| == 2 { assert text[|head| + 1] == sep[1]; }
  }

  /** The first line of a rendered text, and the rest. */
  lemma {:induction false} FirstLineReads(line: string, tail: string)
    requires Settles(line)
    ensures Lines(line + "\n" + tail) == [Chomp(line)] + Lines(tail)
  {
    var head := Chomp(line);
    ChompUnbroken(line);
    if head == line {
      OneLine(head, "\n", tail);
    } else {
      OneLine(head, "\r\n", tail);
      assert line + "\n" + tail == head + "\r\n" + tail;
    }
  }

  lemma {:induction false} RenderedChomps(lines: seq<string>)
    requires lines != [] && forall i | 0 <= i < |lines| :: Settles(lines[i])
    ensures Lines(Render(lines)) == Chomped(lines)
  {
    var tail := if |lines| == 1 then "" else Render(lines[1..]);
    assert Render(lines) == lines[0] + "\n" + tail;
    FirstLineReads(lines[0], tail);
    ChompedFirst(lines);
    if |lines| > 1 {
      RenderedChomps(lines[1..]);
    } else {
      assert Chomped(lines[1..]) == [] == Lines(tail);
    }
  }

  lemma ChompedFirst(lines: seq<string>)
    requires lines != []
    ensures Chomped(lines) == [Chomp(lines[0])] + Chomped(lines[1..])
  {
  }

  lemma {:induction false} RenderedReadsBack(lines: seq<string>)
    requires lines != [] && forall l <- lines :: Unbroken(l)
    ensures Lines(Render(lines)) == lines
  {
    forall i | 0 <= i < |lines| ensures Settles(lines[i]) && Chomp(lines[i]) == lines[i] {
      assert lines[i] in lines;
      UnbrokenSettles(lines[i]);
      ChompUnbroken(lines[i]);
    }
    RenderedChomps(lines);
    assert Chomped(lines) == lines;
  }

  lemma UnbrokenSettles(line: string)
    requires Unbroken(line)
    ensures Settles(line)
  {
    assert forall i | 0 <= i < |line| :: line[i] in line;
  }

  /** Rendered lines are read back exactly iff there is one and none holds a break. */
  lemma ReadsBackExactly(lines: seq<string>)
    ensures Lines(Render(lines)) == lines <==> lines != [] && forall l <- lines :: Unbroken(l)
  {
    if lines != [] && forall l <- lines :: Unbroken(l) { RenderedReadsBack(lines); }
    LinesAreUnbroken(Render(lines));
    assert Lines(Render(lines)) != [];
  }

  /** How any text splits: at the next break, a carriage return and a newline
      after it being one, and with no empty line at the end. */
  lemma {:induction false} SplitsAt(head: string, c: char, tail: string)
    requires Unbroken(head)
    ensures Lines(head) == if head == "" then [] else [head]
    ensures Lines(head + "\r\n" + tail) == [head] + Lines(tail)
    ensures Break(c) && !(c == '\r' && tail != "" && tail[0] == '\n') ==>
              Lines(head + [c] + tail) == [head] + Lines(tail)
  {
    OneLine(head, "\r\n", tail);
    assert forall i | 0 <= i < |head| :: head[i] in head;
    if Break(c) {
      FirstBreakOf(head, c, tail);
      var text := head + [c] + tail;
      assert text[..|head|] == head && text[|head| + 1..] == tail && text[|head|] == c;
      assert tail != "" ==> text[|head| + 1] == tail[0];
    }
  }

  /** The lines are joined by newlines, with one at the end. */
  lemma {:induction false} RenderIs(lines: seq<string>)
    ensures Render(lines) == Join(lines, '\n') + "\n"
  {
    if |lines| > 1 { RenderIs(lines[1..]); }
  }

  // ---- one line

  function LStrip(s: string): string {
    if s == "" || !Space(s[0]) then s else LStrip(s[1..])
  }

  function RStrip(s: string): string {
    if s == "" || !Space(s[|s| - 1]) then s else RStrip(s[..|s| - 1])
  }

  function Strip(s: string): string { RStrip(LStrip(s)) }

  predicate Starts(s: string, prefix: string) { prefix <= s }

  function Spaces(n: nat): (s: string)
    ensures |s| == n && forall c <- s :: c == ' '
  {
    seq(n, i => ' ')
  }

  lemma LStripLength(s: string)
    ensures |LStrip(s)| <= |s| && LStrip(s) == s[|s| - |LStrip(s)|..]
    ensures LStrip(s) != "" ==> !Space(LStrip(s)[0])
    ensures s != "" && Space(s[0]) ==> |LStrip(s)| < |s|
  {
  }

  function Indent(line: string): nat {
    LStripLength(line);
    |line| - |LStrip(line)|
  }

  /** Text that starts with something that is not a space is found after any indent. */
  lemma {:induction false} LStripSpaces(n: nat, s: string)
    requires s != "" && !Space(s[0])
    ensures LStrip(Spaces(n) + s) == s
  {
    if n > 0 {
      assert (Spaces(n) + s)[1..] == Spaces(n - 1) + s;
      LStripSpaces(n - 1, s);
    } else {
      assert Spaces(0) + s == s;
    }
  }

  lemma {:induction false} RStripKeepsStart(s: string, prefix: string)
    requires prefix != "" && !Space(prefix[|prefix| - 1])
    ensures Starts(RStrip(s), prefix) <==> Starts(s, prefix)
  {
    if s != "" && Space(s[|s| - 1]) {
      RStripKeepsStart(s[..|s| - 1], prefix);
      if Starts(s, prefix) {
        assert |prefix| < |s|;
        assert prefix == s[..|prefix|] == s[..|s| - 1][..|prefix|];
      }
    }
  }

  datatype Value = Null | Flag(flag: bool) | Words(words: string)

  function Scalar(v: Value): string {
    match v
    case Null => "null"
    case Flag(b) => if b then "true" else "false"
    case Words(s) => s
  }

  /** One persona's update: the two fields the editor can write. */
  datatype Update = Update(name: string, model: Option<Value>, fallback: Option<Value>)

  const KEYS: set<string> := {"model", "fallback"}

  function Given(u: Update, key: string): Option<Value> {
    if key == "model" then u.model else if key == "fallback" then u.fallback else None
  }

  predicate Has(line: string, key: string) { Starts(Strip(line), key + ":") }

  /** The key a line holds, when the update gives that key a value. */
  function KeyOf(line: string, u: Update): Option<string> {
    if u.model.Some? && Has(line, "model") then Some("model")
    else if u.fallback.Some? && Has(line, "fallback") then Some("fallback")
    else None
  }

  function Entry(key: string, v: Value): string { key + ": " + Scalar(v) }

  function Rewritten(line: string, u: Update): string {
    var key := KeyOf(line, u);
    if key.None? then line else Spaces(Indent(line)) + Entry(key.value, Given(u, key.value).value)
  }

  predicate Header(line: string, name: string) { Has(line, name) }

  predicate Blank(line: string) { Strip(line) == "" }

  predicate Ends(line: string) { !Blank(line) && !Starts(line, " ") }

  // ---- one persona, every persona

  /** Line `i` lies in a block: a header is at or above it, and no line after that
      header ends the block. */
  ghost predicate Inside(lines: seq<string>, name: string, i: int) {
    exists j :: 0 <= j <= i < |lines| && Opens(lines, name, j, i)
  }

  ghost predicate Opens(lines: seq<string>, name: string, j: nat, i: int)
    requires j <= i < |lines|
  {
    Header(lines[j], name) && forall k | j < k <= i :: !Ends(lines[k])
  }

  ghost predicate Touched(lines: seq<string>, u: Update, i: nat)
    requires i < |lines|
  {
    Inside(lines, u.name, i) && !Header(lines[i], u.name) && KeyOf(lines[i], u).Some?
  }

  ghost function EditedLine(lines: seq<string>, u: Update, i: nat): string
    requires i < |lines|
  {
    if Touched(lines, u, i) then Rewritten(lines[i], u) else lines[i]
  }

  ghost function Edited(lines: seq<string>, u: Update): seq<string> {
    seq(|lines|, i requires 0 <= i < |lines| => EditedLine(lines, u, i))
  }

  ghost function EditedAll(lines: seq<string>, updates: seq<Update>): seq<string>
    decreases |updates|
  {
    if updates == [] then lines else EditedAll(Edited(lines, updates[0]), updates[1..])
  }

  lemma InsideStep(lines: seq<string>, name: string, i: nat)
    requires i < |lines|
    ensures Inside(lines, name, i) <==> Header(lines[i], name) || (Inside(lines, name, i - 1) && !Ends(lines[i]))
  {
    if Header(lines[i], name) { assert Opens(lines, name, i, i); }
    if Inside(lines, name, i - 1) && !Ends(lines[i]) {
      var j :| 0 <= j <= i - 1 && Opens(lines, name, j, i - 1);
      assert Opens(lines, name, j, i);
    }
    if Inside(lines, name, i) && !Header(lines[i], name) {
      var j :| 0 <= j <= i && Opens(lines, name, j, i);
      assert Opens(lines, name, j, i - 1);
    }
  }

  // ---- one persona, in characters alone

  /** After exactly `n` white characters the line goes on with this. */
  ghost predicate Padded(line: string, n: nat, body: string) {
    && n <= |line| && line[n..] == body && (forall i | 0 <= i < n :: Space(line[i]))
    && (body != "" ==> !Space(body[0]))
  }

  ghost predicate Headed(line: string, n: nat, key: string) {
    n <= |line| && Padded(line, n, line[n..]) && key + ":" <= line[n..]
  }

  /** A line at the margin that is not blank. */
  ghost predicate AtMargin(line: string) { (exists i :: 0 <= i < |line| && !Space(line[i])) && line[0] != ' ' }

  /** The text of a value in a line. */
  ghost predicate Spells(v: Value, text: string) {
    match v
    case Null => text == "null"
    case Flag(b) => (b ==> text == "true") && (!b ==> text == "false")
    case Words(s) => text == s
  }

  /** The line is under a header of that name, with no line at the margin in
      between and not itself such a header. */
  ghost predicate Under(lines: seq<string>, name: string, i: nat)
    requires i < |lines|
  {
    && (exists j, n: nat :: 0 <= j < i && Headed(lines[j], n, name) && forall k | j < k <= i :: !AtMargin(lines[k]))
    && !exists n: nat :: Headed(lines[i], n, name)
  }

  /** The line is the field's, indented by `n`, and the update gives it a value. */
  ghost predicate Field(line: string, n: nat, key: string, given: Option<Value>) {
    Headed(line, n, key) && given.Some?
  }

  lemma {:induction false} PadIs(line: string)
    ensures Padded(line, Indent(line), LStrip(line))
  {
    LStripLength(line);
    if line != "" && Space(line[0]) {
      PadIs(line[1..]);
      LStripLength(line[1..]);
      assert forall i | 0 < i < |line| :: line[i] == line[1..][i - 1];
    }
  }

  lemma {:induction false} OnePad(line: string, n: nat, m: nat)
    requires n <= |line| && m <= |line| && Padded(line, n, line[n..]) && Padded(line, m, line[m..])
    ensures n == m
  {
    assert n < |line| ==> line[n..][0] == line[n];
    assert m < |line| ==> line[m..][0] == line[m];
  }

  lemma {:induction false} HasMeans(line: string, key: string)
    ensures Has(line, key) <==> exists n: nat :: Headed(line, n, key)
    ensures forall n: nat | Headed(line, n, key) :: n == Indent(line)
  {
    PadIs(line);
    HasBody(line, key);
    assert LStrip(line) == line[Indent(line)..];
    forall n: nat | Headed(line, n, key) ensures n == Indent(line) { OnePad(line, n, Indent(line)); }
    if Has(line, key) { assert Headed(line, Indent(line), key); }
  }

  lemma {:induction false} EndsMeans(line: string)
    ensures Ends(line) <==> AtMargin(line)
  {
    PadIs(line);
    var n := Indent(line);
    var body := LStrip(line);
    if body != "" {
      RStripKeepsStart(body, body[..1]);
      assert Starts(body, body[..1]) && line[n] == body[0];
    } else {
      assert forall i | 0 <= i < |line| :: Space(line[i]);
    }
  }

  lemma {:induction false} UnderMeans(lines: seq<string>, name: string, i: nat)
    requires i < |lines|
    ensures Under(lines, name, i) <==> Inside(lines, name, i) && !Header(lines[i], name)
  {
    forall k | 0 <= k < |lines|
      ensures Ends(lines[k]) <==> AtMargin(lines[k])
      ensures Header(lines[k], name) <==> exists n: nat :: Headed(lines[k], n, name)
    {
      EndsMeans(lines[k]);
      HasMeans(lines[k], name);
    }
    if Inside(lines, name, i) && !Header(lines[i], name) {
      var j :| 0 <= j <= i && Opens(lines, name, j, i);
      assert j < i && Header(lines[j], name);
    }
    if Under(lines, name, i) {
      var j, n: nat :| 0 <= j < i && Headed(lines[j], n, name) && forall k | j < k <= i :: !AtMargin(lines[k]);
      assert Opens(lines, name, j, i);
    }
  }

  /** What one persona's update does to a line: under its header a `model:` or
      `fallback:` line for which there is a value becomes the same indent in
      spaces, the field and the value, and every other line stays. */
  lemma {:induction false} EditsExactly(lines: seq<string>, u: Update, i: nat)
    requires i < |lines|
    ensures |Edited(lines, u)| == |lines|
    ensures var out := Edited(lines, u)[i];
            && (forall n: nat | Under(lines, u.name, i) && Field(lines[i], n, "model", u.model) ::
                  exists text :: Spells(u.model.value, text) && out == Spaces(n) + ("model: " + text))
            && (forall n: nat | Under(lines, u.name, i) && Field(lines[i], n, "fallback", u.fallback) ::
                  exists text :: Spells(u.fallback.value, text) && out == Spaces(n) + ("fallback: " + text))
            && (!Under(lines, u.name, i)
                || (forall n: nat :: !Field(lines[i], n, "model", u.model)
                                     && !Field(lines[i], n, "fallback", u.fallback)) ==>
                  out == lines[i])
  {
    UnderMeans(lines, u.name, i);
    HasMeans(lines[i], "model");
    HasMeans(lines[i], "fallback");
    NotBoth(lines[i]);
    forall key | key in KEYS && Given(u, key).Some?
      ensures Spells(Given(u, key).value, Scalar(Given(u, key).value))
      ensures Entry(key, Given(u, key).value) == key + ": " + Scalar(Given(u, key).value)
    {
    }
    assert "model" in KEYS && "fallback" in KEYS && "model: " == "model" + ": " && "fallback: " == "fallback" + ": ";
    assert "model"[0] != "fallback"[0];
  }

  lemma NotBoth(line: string)
    ensures !(Has(line, "model") && Has(line, "fallback"))
  {
    HasBody(line, "model");
    HasBody(line, "fallback");
    assert "model:"[0] != "fallback:"[0];
  }

  /** The scan for one persona, over the lines themselves. */
  method EditPersona(lines: array<string>, u: Update)
    modifies lines
    ensures lines[..] == Edited(old(lines[..]), u)
  {
    ghost var was := lines[..];
    var inBlock := false;
    for i := 0 to lines.Length
      invariant inBlock == Inside(was, u.name, i - 1)
      invariant forall k | 0 <= k < i :: lines[k] == EditedLine(was, u, k)
      invariant forall k | i <= k < lines.Length :: lines[k] == was[k]
    {
      var line := lines[i];
      InsideStep(was, u.name, i);
      var stripped := Strip(line);
      if inBlock && stripped != "" && !Starts(line, " ") { inBlock := false; }
      if Starts(stripped, u.name + ":") {
        inBlock := true;
        continue;
      }
      if !inBlock { continue; }
      var key := KeyOf(line, u);
      if key.Some? {
        lines[i] := Spaces(Indent(line)) + key.value + ": " + Scalar(Given(u, key.value).value);
        assert lines[i] == Rewritten(line, u);
      }
    }
  }

  /** `_update_persona_lines`. */
  method UpdatePersonaLines(text: string, updates: seq<Update>) returns (out: string)
    ensures out == Render(EditedAll(Lines(text), updates))
  {
    var split := Lines(text);
    var lines := new string[|split|](i requires 0 <= i < |split| => split[i]);
    assert lines[..] == split;
    for n := 0 to |updates|
      invariant EditedAll(lines[..], updates[n..]) == EditedAll(split, updates)
    {
      EditPersona(lines, updates[n]);
      assert updates[n..][1..] == updates[n + 1..];
    }
    return Render(lines[..]);
  }

  // ---- what a write leaves as it was

  /** A name that starts with `model:` or `fallback:` can turn into, or out of, a
      header when such a line is rewritten; any other name cannot. */
  predicate Plain(name: string) { !Starts(name, "model:") && !Starts(name, "fallback:") }

  predicate AllPlain(us: seq<Update>) { forall u <- us :: Plain(u.name) }

  /** How a line with text after its indent looks to the editor. */
  lemma Shown(n: nat, body: string)
    requires body != "" && !Space(body[0])
    ensures var line := Spaces(n) + body;
            && LStrip(line) == body && Indent(line) == n && !Blank(line)
            && (Ends(line) <==> n == 0)
            && forall key :: Has(line, key) <==> Starts(body, key + ":")
  {
    var line := Spaces(n) + body;
    LStripSpaces(n, body);
    forall key ensures Has(line, key) <==> Starts(body, key + ":") { RStripKeepsStart(body, key + ":"); }
    RStripKeepsStart(body, body[..1]);
    assert Starts(body, body[..1]);
    if n > 0 { assert line[0] == ' '; } else { assert line == body; }
  }

  lemma HasBody(line: string, key: string)
    ensures Has(line, key) <==> Starts(LStrip(line), key + ":")
    ensures Has(line, key) ==> !Blank(line)
  {
    RStripKeepsStart(LStrip(line), key + ":");
  }

  /** Two names head the same text only if one extends the other past a colon. */
  lemma OneKey(body: string, key: string, name: string)
    requires ':' !in key && Starts(body, key + ":") && Starts(body, name + ":")
    ensures name == key || Starts(name, key + ":")
  {
    var k, m := key + ":", name + ":";
    assert body[|key|] == ':' && body[|name|] == ':';
    assert forall i | 0 <= i < |key| :: key[i] in key && body[i] == k[i] == key[i];
    assert body[..|key|] == key && body[..|name|] == name;
    if |name| > |key| { assert name[..|k|] == body[..|k|] == k; }
  }

  /** What the editor can tell of a line, for these updates. */
  ghost predicate Alike(a: string, b: string, us: seq<Update>) {
    && Indent(a) == Indent(b) && (Ends(a) <==> Ends(b))
    && (Has(a, "model") <==> Has(b, "model")) && (Has(a, "fallback") <==> Has(b, "fallback"))
    && forall u <- us :: Header(a, u.name) <==> Header(b, u.name)
  }

  ghost predicate AllAlike(a: seq<string>, b: seq<string>, us: seq<Update>) {
    |a| == |b| && forall i | 0 <= i < |a| :: Alike(a[i], b[i], us)
  }

  lemma KeyIsColonFree(key: string)
    requires key in KEYS
    ensures ':' !in key && key != "" && !Space(key[0])
  {
  }

  /** A rewritten line holds the same key as before, and is a header of a plain
      name only if it was one. */
  lemma RewrittenAlike(line: string, u: Update, us: seq<Update>)
    requires KeyOf(line, u).Some? && Starts(line, " ") && AllPlain(us)
    ensures Alike(line, Rewritten(line, u), us)
  {
    var key := KeyOf(line, u).value;
    var v := Scalar(Given(u, key).value);
    EntryAlike(line, key, v, us);
  }

  /** So is any line of that key at that indent. */
  lemma EntryAlike(line: string, key: string, value: string, us: seq<Update>)
    requires key in KEYS && Has(line, key) && Starts(line, " ") && AllPlain(us)
    ensures Alike(line, Spaces(Indent(line)) + (key + ": " + value), us)
  {
    var body := key + ": " + value;
    KeyIsColonFree(key);
    assert body[..|key| + 1] == key + ":";
    LStripLength(line);
    Shown(Indent(line), body);
    HasBody(line, key);
    assert Indent(line) > 0;
    forall name | Plain(name) ensures Has(line, name) <==> Has(Spaces(Indent(line)) + body, name) {
      HasBody(line, name);
      SameHeads(LStrip(line), body, key, name);
    }
    assert Plain("model") && Plain("fallback") by { assert "fallback"[0] != "model:"[0]; }
  }

  lemma SameHeads(a: string, b: string, key: string, name: string)
    requires key in KEYS && Plain(name) && Starts(a, key + ":") && Starts(b, key + ":")
    ensures Starts(a, name + ":") <==> Starts(b, name + ":")
  {
    KeyIsColonFree(key);
    if Starts(a, name + ":") { OneKey(a, key, name); }
    if Starts(b, name + ":") { OneKey(b, key, name); }
  }

  lemma AlikeInside(a: seq<string>, b: seq<string>, us: seq<Update>, u: Update, i: nat)
    requires AllAlike(a, b, us) && u in us && i < |a|
    ensures Inside(a, u.name, i) <==> Inside(b, u.name, i)
  {
    forall k | 0 <= k < |a| ensures (Ends(a[k]) <==> Ends(b[k])) && (Header(a[k], u.name) <==> Header(b[k], u.name)) {
      assert Alike(a[k], b[k], us);
    }
    if j: nat :| j <= i && Opens(a, u.name, j, i) { assert Opens(b, u.name, j, i); }
    if j: nat :| j <= i && Opens(b, u.name, j, i) { assert Opens(a, u.name, j, i); }
  }

  lemma AlikeTouched(a: seq<string>, b: seq<string>, us: seq<Update>, u: Update, i: nat)
    requires AllAlike(a, b, us) && u in us && i < |a|
    ensures Touched(a, u, i) <==> Touched(b, u, i)
    ensures Touched(a, u, i) ==> Rewritten(a[i], u) == Rewritten(b[i], u)
  {
    AlikeInside(a, b, us, u, i);
    assert Alike(a[i], b[i], us);
  }

  /** A touched line is indented by at least one space. */
  lemma TouchedIsIndented(lines: seq<string>, u: Update, i: nat)
    requires i < |lines| && Touched(lines, u, i)
    ensures Starts(lines[i], " ")
  {
    InsideStep(lines, u.name, i);
    HasBody(lines[i], KeyOf(lines[i], u).value);
  }

  /** The last update to touch a line of the text as it was. */
  ghost function LastTouch(lines: seq<string>, us: seq<Update>, i: nat): (r: Option<Update>)
    requires i < |lines|
    ensures r.Some? ==> r.value in us && Touched(lines, r.value, i)
    ensures r.None? ==> forall u <- us :: !Touched(lines, u, i)
    decreases |us|
  {
    if us == [] then None
    else
      var later := LastTouch(lines, us[1..], i);
      if later.Some? then later else if Touched(lines, us[0], i) then Some(us[0]) else None
  }

  ghost function Outcome(lines: seq<string>, now: seq<string>, us: seq<Update>, i: nat): string
    requires i < |lines| == |now|
  {
    var last := LastTouch(lines, us, i);
    if last.Some? then Rewritten(lines[i], last.value) else now[i]
  }

  lemma EditedAlike(lines: seq<string>, now: seq<string>, all: seq<Update>, u: Update)
    requires AllPlain(all) && u in all && AllAlike(lines, now, all)
    ensures AllAlike(lines, Edited(now, u), all)
  {
    forall i | 0 <= i < |lines| ensures Alike(lines[i], Edited(now, u)[i], all) {
      assert Alike(lines[i], now[i], all);
      if Touched(now, u, i) {
        TouchedIsIndented(now, u, i);
        RewrittenAlike(now[i], u, all);
      }
    }
  }

  /** However the updates overlap, each line ends as the last update that touches
      it in the original text leaves it. */
  lemma {:induction false} LastWriteWins(lines: seq<string>, now: seq<string>, us: seq<Update>, all: seq<Update>)
    requires AllPlain(all) && AllAlike(lines, now, all) && forall u <- us :: u in all
    ensures AllAlike(lines, EditedAll(now, us), all)
    ensures forall i | 0 <= i < |lines| :: EditedAll(now, us)[i] == Outcome(lines, now, us, i)
    decreases |us|
  {
    if us != [] {
      var u := us[0];
      var next := Edited(now, u);
      EditedAlike(lines, now, all, u);
      LastWriteWins(lines, next, us[1..], all);
      forall i | 0 <= i < |lines| ensures EditedAll(now, us)[i] == Outcome(lines, now, us, i) {
        assert EditedAll(next, us[1..])[i] == Outcome(lines, next, us[1..], i);
        AlikeTouched(lines, now, all, u, i);
      }
    }
  }

  lemma AlikeSelf(lines: seq<string>, us: seq<Update>)
    ensures AllAlike(lines, lines, us)
  {
  }

  // ---- the promises

  /** Whether `b` is `a`, or a line of the same key at the same indent that gives
      it a value from the updates. */
  ghost predicate Kept(a: string, b: string, us: seq<Update>) {
    a == b || exists key, u :: KeptKey(a, b, us, key, u)
  }

  ghost predicate KeptKey(a: string, b: string, us: seq<Update>, key: string, u: Update) {
    && key in KEYS && u in us && Has(a, key) && Has(b, key) && Given(u, key).Some?
    && Indent(b) == Indent(a) && b == Spaces(Indent(a)) + Entry(key, Given(u, key).value)
  }

  lemma RewrittenIsKept(line: string, u: Update, us: seq<Update>)
    requires u in us && KeyOf(line, u).Some?
    ensures Kept(line, Rewritten(line, u), us)
  {
    var key := KeyOf(line, u).value;
    var v := Given(u, key).value;
    KeyIsColonFree(key);
    EntryParts(key, Scalar(v));
    Shown(Indent(line), Entry(key, v));
    assert KeptKey(line, Rewritten(line, u), us, key, u);
  }

  lemma KeptTwice(a: string, b: string, c: string, us: seq<Update>, more: seq<Update>)
    requires Kept(a, b, us) && Kept(b, c, more) && forall u <- more :: u in us
    ensures Kept(a, c, us)
  {
    if a != b && b != c {
      var k, u :| KeptKey(a, b, us, k, u);
      var l, v :| KeptKey(b, c, more, l, v);
      KeyIsColonFree(k);
      KeyIsColonFree(l);
      OneName(b, k, l);
      assert KeptKey(a, c, us, k, v);
    } else if b != c {
      var l, v :| KeptKey(b, c, more, l, v);
      assert KeptKey(a, c, us, l, v);
    }
  }

  /** Whatever the names: the lines keep their number and order, and a line that
      changes is a `model:` or `fallback:` line, before and after, at one indent. */
  lemma {:induction false} OnlyKeyLinesChange(lines: seq<string>, us: seq<Update>, i: nat)
    requires i < |lines|
    ensures |EditedAll(lines, us)| == |lines| && Kept(lines[i], EditedAll(lines, us)[i], us)
    decreases |us|
  {
    if us != [] {
      var mid := Edited(lines, us[0]);
      if Touched(lines, us[0], i) { RewrittenIsKept(lines[i], us[0], us); }
      OnlyKeyLinesChange(mid, us[1..], i);
      KeptTwice(lines[i], mid[i], EditedAll(mid, us[1..])[i], us, us[1..]);
    }
  }

  /** For plain names it is moreover a line in a named block of the original
      text, with the value of the last update whose block it is in. */
  lemma {:induction false} OnlyNamedLinesChange(lines: seq<string>, us: seq<Update>, i: nat)
    requires AllPlain(us) && i < |lines|
    ensures var out := EditedAll(lines, us);
            && |out| == |lines|
            && match LastTouch(lines, us, i)
               case None => out[i] == lines[i]
               case Some(u) =>
                 exists key :: key in KEYS && Has(lines[i], key) && Given(u, key).Some?
                   && out[i] == Spaces(Indent(lines[i])) + key + ": " + Scalar(Given(u, key).value)
                   && Indent(out[i]) == Indent(lines[i])
  {
    AlikeSelf(lines, us);
    LastWriteWins(lines, lines, us, us);
    assert EditedAll(lines, us)[i] == Outcome(lines, lines, us, i);
    assert Alike(lines[i], EditedAll(lines, us)[i], us);
    if LastTouch(lines, us, i).Some? { RewrittenKey(lines[i], LastTouch(lines, us, i).value); }
  }

  lemma RewrittenKey(line: string, u: Update)
    requires KeyOf(line, u).Some?
    ensures exists key :: key in KEYS && Has(line, key) && Given(u, key).Some?
                   && Rewritten(line, u) == Spaces(Indent(line)) + key + ": " + Scalar(Given(u, key).value)
  {
    var key := KeyOf(line, u).value;
    var v := Scalar(Given(u, key).value);
    assert Spaces(Indent(line)) + (key + ": " + v) == Spaces(Indent(line)) + key + ": " + v;
    assert key in KEYS && Has(line, key) && Given(u, key).Some?;
  }

  lemma EditingTwice(lines: seq<string>, us: seq<Update>)
    requires AllPlain(us)
    ensures EditedAll(EditedAll(lines, us), us) == EditedAll(lines, us)
  {
    AlikeSelf(lines, us);
    LastWriteWins(lines, lines, us, us);
    var once := EditedAll(lines, us);
    LastWriteWins(lines, once, us, us);
    forall i | 0 <= i < |lines| ensures EditedAll(once, us)[i] == once[i] {
      assert EditedAll(once, us)[i] == Outcome(lines, once, us, i);
      assert once[i] == Outcome(lines, lines, us, i);
    }
  }

  /** Two updates commute exactly when no line is in both blocks and given two values. */
  lemma UpdatesCommute(lines: seq<string>, u: Update, v: Update)
    requires Plain(u.name) && Plain(v.name)
    ensures EditedAll(lines, [u, v]) == EditedAll(lines, [v, u])
            <==> Agree(lines, u, v)
  {
    var all := [u, v];
    AlikeSelf(lines, all);
    LastWriteWins(lines, lines, [u, v], all);
    LastWriteWins(lines, lines, [v, u], all);
    var a, b := EditedAll(lines, [u, v]), EditedAll(lines, [v, u]);
    forall i | 0 <= i < |lines|
      ensures a[i] == b[i] <==> (Touched(lines, u, i) && Touched(lines, v, i)
                                 ==> Rewritten(lines[i], u) == Rewritten(lines[i], v))
    {
      PairTouch(lines, u, v, i);
      PairTouch(lines, v, u, i);
      assert a[i] == Outcome(lines, lines, [u, v], i) && b[i] == Outcome(lines, lines, [v, u], i);
    }
  }

  lemma PairTouch(lines: seq<string>, u: Update, v: Update, i: nat)
    requires i < |lines|
    ensures LastTouch(lines, [u, v], i)
            == if Touched(lines, v, i) then Some(v) else if Touched(lines, u, i) then Some(u) else None
  {
    assert [u, v][1..] == [v] && [v][1..] == [];
    assert LastTouch(lines, [v], i) == if Touched(lines, v, i) then Some(v) else None;
  }

  // ---- on whole texts

  ghost function Updated(text: string, us: seq<Update>): string { Render(EditedAll(Lines(text), us)) }

  predicate ValueUnbroken(v: Option<Value>) { v.Some? ==> Unbroken(Scalar(v.value)) }

  predicate ValuesUnbroken(us: seq<Update>) { forall u <- us :: ValueUnbroken(u.model) && ValueUnbroken(u.fallback) }

  lemma {:induction false} RewrittenUnbroken(line: string, u: Update)
    requires ValueUnbroken(u.model) && ValueUnbroken(u.fallback) && Unbroken(line)
    ensures Unbroken(Rewritten(line, u))
  {
    var key := KeyOf(line, u);
    if key.Some? {
      assert Unbroken("model") && Unbroken("fallback") && Unbroken(": ");
      UnbrokenJoined(key.value, ": ");
      UnbrokenJoined(key.value + ": ", Scalar(Given(u, key.value).value));
      UnbrokenJoined(Spaces(Indent(line)), Entry(key.value, Given(u, key.value).value));
    }
  }

  lemma {:induction false} UnbrokenJoined(a: string, b: string)
    requires Unbroken(a) && Unbroken(b)
    ensures Unbroken(a + b)
  {
  }

  predicate ValueSettles(v: Option<Value>) { v.Some? ==> Settles(Scalar(v.value)) }

  predicate ValuesSettle(us: seq<Update>) { forall u <- us :: ValueSettles(u.model) && ValueSettles(u.fallback) }

  lemma {:induction false} EntrySettles(n: nat, key: string, value: string)
    requires key in KEYS && Settles(value)
    ensures var line := Spaces(n) + (key + ": " + value);
            Settles(line) && Chomp(line) == Spaces(n) + (key + ": " + Chomp(value))
  {
    LeadUnbroken(n, key);
    LeadSettles(Spaces(n) + (key + ": "), value);
    LeadJoins(n, key, value);
    LeadJoins(n, key, Chomp(value));
  }

  lemma LeadUnbroken(n: nat, key: string)
    requires key in KEYS
    ensures Unbroken(Spaces(n) + (key + ": "))
  {
    assert Unbroken("model") && Unbroken("fallback") && Unbroken(": ") && Unbroken(Spaces(n));
    UnbrokenJoined(key, ": ");
    UnbrokenJoined(Spaces(n), key + ": ");
  }

  lemma LeadJoins(n: nat, key: string, s: string)
    ensures Spaces(n) + (key + ": " + s) == Spaces(n) + (key + ": ") + s
  {
  }

  lemma {:induction false} LeadSettles(lead: string, value: string)
    requires Unbroken(lead) && Settles(value)
    ensures Settles(lead + value) && Chomp(lead + value) == lead + Chomp(value)
  {
    var line := lead + value;
    assert forall i | 0 <= i < |lead| :: line[i] == lead[i] && lead[i] in lead;
    assert forall i | |lead| <= i < |line| :: line[i] == value[i - |lead|];
  }

  /** What re-reading makes of an edited line looks to the editor as the original did. */
  lemma EditedLineSettles(line: string, u: Update, us: seq<Update>)
    requires KeyOf(line, u).Some? && Starts(line, " ") && AllPlain(us)
    requires ValueSettles(u.model) && ValueSettles(u.fallback)
    ensures Settles(Rewritten(line, u)) && Alike(line, Chomp(Rewritten(line, u)), us)
  {
    var key := KeyOf(line, u).value;
    var v := Scalar(Given(u, key).value);
    EntrySettles(Indent(line), key, v);
    EntryAlike(line, key, Chomp(v), us);
  }

  lemma {:induction false} EditedSettles(lines: seq<string>, us: seq<Update>)
    requires AllPlain(us) && ValuesSettle(us) && forall l <- lines :: Unbroken(l)
    ensures var out := EditedAll(lines, us);
            |out| == |lines| && (forall i | 0 <= i < |out| :: Settles(out[i])) && AllAlike(lines, Chomped(out), us)
  {
    AlikeSelf(lines, us);
    LastWriteWins(lines, lines, us, us);
    var out := EditedAll(lines, us);
    forall i | 0 <= i < |lines| ensures Settles(out[i]) && Alike(lines[i], Chomp(out[i]), us) {
      assert out[i] == Outcome(lines, lines, us, i) && lines[i] in lines;
      var last := LastTouch(lines, us, i);
      if last.Some? {
        TouchedIsIndented(lines, last.value, i);
        EditedLineSettles(lines[i], last.value, us);
      } else {
        ChompUnbroken(lines[i]);
      }
    }
  }

  /** Editing what is read back of an edit gives the same lines again. */
  lemma {:induction false} EditedAgain(lines: seq<string>, us: seq<Update>)
    requires AllPlain(us) && ValuesSettle(us) && forall l <- lines :: Unbroken(l)
    ensures EditedAll(Chomped(EditedAll(lines, us)), us) == EditedAll(lines, us)
  {
    var once := EditedAll(lines, us);
    var read := Chomped(once);
    AlikeSelf(lines, us);
    LastWriteWins(lines, lines, us, us);
    EditedSettles(lines, us);
    LastWriteWins(lines, read, us, us);
    forall i | 0 <= i < |lines| ensures EditedAll(read, us)[i] == once[i] {
      assert EditedAll(read, us)[i] == Outcome(lines, read, us, i);
      assert once[i] == Outcome(lines, lines, us, i) && lines[i] in lines;
      ChompUnbroken(lines[i]);
    }
  }

  lemma {:induction false} UnbrokenIsKept(lines: seq<string>, us: seq<Update>)
    requires AllPlain(us) && ValuesUnbroken(us) && forall l <- lines :: Unbroken(l)
    ensures Chomped(EditedAll(lines, us)) == EditedAll(lines, us)
  {
    AlikeSelf(lines, us);
    LastWriteWins(lines, lines, us, us);
    var out := EditedAll(lines, us);
    forall i | 0 <= i < |out| ensures Chomp(out[i]) == out[i] {
      assert out[i] == Outcome(lines, lines, us, i) && lines[i] in lines;
      var last := LastTouch(lines, us, i);
      if last.Some? { RewrittenUnbroken(lines[i], last.value); }
      assert Unbroken(out[i]);
      ChompUnbroken(out[i]);
    }
  }

  /** Editing a text once more changes nothing. The edited text is read back as the
      edited lines, less the carriage returns at their ends; with unbroken values
      there are none. An empty text gains its one empty line. */
  lemma {:induction false} EditingTextTwice(text: string, us: seq<Update>)
    requires AllPlain(us) && ValuesSettle(us)
    ensures text != "" ==> Lines(Updated(text, us)) == Chomped(EditedAll(Lines(text), us))
    ensures text != "" && ValuesUnbroken(us) ==> Lines(Updated(text, us)) == EditedAll(Lines(text), us)
    ensures text == "" ==> Updated(text, us) == "\n"
    ensures Updated(Updated(text, us), us) == Updated(text, us)
  {
    var lines := Lines(text);
    LinesAreUnbroken(text);
    if text != "" {
      EditedSettles(lines, us);
      RenderedChomps(EditedAll(lines, us));
      EditedAgain(lines, us);
      if ValuesUnbroken(us) { UnbrokenIsKept(lines, us); }
    } else {
      NoLines(us);
      assert Lines("\n") == [""] by { RenderedReadsBack([""]); }
      OneEmptyLine(us);
    }
  }

  lemma {:induction false} NoLines(us: seq<Update>)
    ensures EditedAll([], us) == []
    decreases |us|
  {
    if us != [] { NoLines(us[1..]); }
  }

  lemma {:induction false} OneEmptyLine(us: seq<Update>)
    ensures EditedAll([""], us) == [""]
    decreases |us|
  {
    if us != [] {
      assert Edited([""], us[0]) == [""];
      OneEmptyLine(us[1..]);
    }
  }

  // ---- which values settle

  /** A persona `w` with one line for the key, and the update that gives it `v`. */
  function OneKeyLines(key: string): seq<string> { ["w:", Spaces(1) + (key + ": a")] }

  function GivesOne(key: string, v: Value): Update {
    Update("w", if key == "model" then Some(v) else None, if key == "fallback" then Some(v) else None)
  }

  /** Under the header `w:` the update rewrites the second line, whatever follows. */
  lemma {:induction false} SecondIsRewritten(lines: seq<string>, us: seq<Update>, key: string, value: string, v: Value)
    requires us == [GivesOne(key, v)]
    requires key in KEYS && |lines| >= 2 && lines[0] == "w:" && lines[1] == Spaces(1) + (key + ": " + value)
    ensures var out := EditedAll(lines, us);
            |out| == |lines| && out[0] == "w:" && out[1] == Spaces(1) + (key + ": " + Scalar(v))
  {
    var u := GivesOne(key, v);
    var other := if key == "model" then "fallback" else "model";
    var body := key + ": " + value;
    assert us[1..] == [] && EditedAll(Edited(lines, u), us[1..]) == Edited(lines, u);
    assert body[..|key| + 1] == key + ":";
    KeyLine(body, key, other, "w");
    assert Has("w:", "w") by { assert Spaces(0) + "w:" == "w:"; Shown(0, "w:"); assert "w" + ":" == "w:"; }
    InsideStep(lines, "w", 0);
    InsideStep(lines, "w", 1);
    assert KeyOf(lines[1], u) == Some(key) && Given(u, key) == Some(v);
    assert Edited(lines, u)[0] == EditedLine(lines, u, 0) && Edited(lines, u)[1] == EditedLine(lines, u, 1);
  }

  /** The first line of a text goes up to its first break. */
  lemma {:induction false} UnsettledReads(lead: string, s: string) returns (head: string, rest: string)
    requires Unbroken(lead) && !Settles(s)
    ensures Lines(lead + s + "\n") == [lead + head] + Lines(rest) && rest != ""
  {
    var i := UnsettledAt(s);
    head := s[..i];
    UnbrokenJoined(lead, head);
    rest := BreakReads(lead + head, s[i], s[i + 1..] + "\n");
    Regrouped(lead, s, i);
  }

  lemma {:induction false} Regrouped(lead: string, s: string, i: nat)
    requires i < |s|
    ensures lead + s + "\n" == (lead + s[..i]) + [s[i]] + (s[i + 1..] + "\n")
  {
  }

  lemma {:induction false} UnsettledAt(s: string) returns (i: nat)
    requires !Settles(s)
    ensures i < |s| && Unbroken(s[..i]) && Break(s[i]) && (s[i] == '\r' ==> i < |s| - 1)
  {
    i := FirstBreak(s);
    var k :| 0 <= k < |s| && Break(s[k]) && !(k == |s| - 1 && s[k] == '\r');
    assert forall k | 0 <= k < i :: s[..i][k] == s[k] && s[..i][k] in s[..i];
  }

  lemma {:induction false} BreakReads(head: string, c: char, more: string) returns (rest: string)
    requires Unbroken(head) && Break(c) && more != "" && (c == '\r' ==> |more| > 1)
    ensures Lines(head + [c] + more) == [head] + Lines(rest) && rest != ""
  {
    var text, n := head + [c] + more, |head|;
    FirstBreakOf(head, c, more);
    assert text[..n] == head && text[n] == c && text[n + 1] == more[0];
    rest := if c == '\r' && more[0] == '\n' then more[1..] else more;
    assert text[n + 1..] == more && text[n + 2..] == more[1..];
  }

  lemma {:induction false} OneKeyReads(key: string)
    requires key in KEYS
    ensures Lines(Render(OneKeyLines(key))) == OneKeyLines(key)
  {
    var lead := Spaces(1) + (key + ": ");
    UnbrokenLead(key);
    UnbrokenJoined(lead, "a");
    assert OneKeyLines(key)[1] == lead + "a";
    assert forall l <- OneKeyLines(key) :: Unbroken(l);
    RenderedReadsBack(OneKeyLines(key));
  }

  lemma RenderTwo(lines: seq<string>, a: string, b: string)
    requires |lines| == 2 && lines[0] == a && lines[1] == b
    ensures Render(lines) == a + "\n" + (b + "\n")
  {
    assert lines[1..] == [b];
  }

  /** The first edit of that text, and the text it gives. */
  lemma {:induction false} FirstEdit(us: seq<Update>, key: string, v: Value)
    requires key in KEYS && us == [GivesOne(key, v)]
    ensures Updated(Render(OneKeyLines(key)), us) == "w:" + "\n" + (Spaces(1) + (key + ": " + Scalar(v)) + "\n")
  {
    OneKeyReads(key);
    assert key + ": a" == key + ": " + "a";
    SecondIsRewritten(OneKeyLines(key), us, key, "a", v);
    RenderTwo(EditedAll(OneKeyLines(key), us), "w:", Spaces(1) + (key + ": " + Scalar(v)));
  }

  lemma {:induction false} ReadsThree(first: string, lead: string, s: string) returns (head: string)
    requires Unbroken(first) && Unbroken(lead) && !Settles(s)
    ensures var read := Lines(first + "\n" + (lead + s + "\n"));
            |read| >= 3 && read[0] == first && read[1] == lead + head
  {
    OneLine(first, "\n", lead + s + "\n");
    var rest: string;
    head, rest := UnsettledReads(lead, s);
    assert Lines(rest) != [];
  }

  /** What is read back of it has more lines. */
  lemma {:induction false} ReadsMore(key: string, s: string) returns (head: string)
    requires key in KEYS && !Settles(s)
    ensures var read := Lines("w:" + "\n" + (Spaces(1) + (key + ": " + s) + "\n"));
            |read| >= 3 && read[0] == "w:" && read[1] == Spaces(1) + (key + ": " + head)
  {
    UnbrokenLead(key);
    head := ReadsThree("w:", Spaces(1) + (key + ": "), s);
    LeadJoins(1, key, s);
    LeadJoins(1, key, head);
  }

  /** A value that does not settle makes some text longer with a second edit. */
  lemma {:induction false} UnsettledGrows(us: seq<Update>, key: string, v: Value)
    requires key in KEYS && !Settles(Scalar(v)) && us == [GivesOne(key, v)]
    ensures var text := Render(OneKeyLines(key)); |Updated(Updated(text, us), us)| > |Updated(text, us)|
  {
    FirstEdit(us, key, v);
    var head := ReadsMore(key, Scalar(v));
    var read := Lines(Updated(Render(OneKeyLines(key)), us));
    SecondIsRewritten(read, us, key, head, v);
    RenderLonger(EditedAll(read, us), "w:", Spaces(1) + (key + ": " + Scalar(v)));
  }

  lemma UnbrokenLead(key: string)
    requires key in KEYS
    ensures Unbroken(Spaces(1) + (key + ": ")) && Unbroken("a") && Unbroken("w:")
  {
    LeadUnbroken(1, key);
  }

  lemma RenderLonger(lines: seq<string>, a: string, b: string)
    requires |lines| >= 3 && lines[0] == a && lines[1] == b
    ensures |Render(lines)| > |a + "\n" + (b + "\n")|
  {
    assert lines[1..][0] == b && |lines[1..]| > 1;
    assert Render(lines) == a + "\n" + Render(lines[1..]);
    assert Render(lines[1..]) == b + "\n" + Render(lines[1..][1..]);
  }

  /** Updates whose values all settle, this one perhaps excepted. */
  predicate SettleBut(us: seq<Update>, v: Value) {
    forall u <- us ::
      (u.model == Some(v) || ValueSettles(u.model)) && (u.fallback == Some(v) || ValueSettles(u.fallback))
  }

  ghost predicate Stable(text: string, us: seq<Update>) { Updated(Updated(text, us), us) == Updated(text, us) }

  lemma {:induction false} UnsettledIsUnstable(v: Value) returns (text: string, us: seq<Update>)
    requires !Settles(Scalar(v))
    ensures AllPlain(us) && SettleBut(us, v) && !Stable(text, us)
  {
    text, us := Render(OneKeyLines("model")), [GivesOne("model", v)];
    ColonFreeIsPlain("w");
    UnsettledGrows(us, "model", v);
  }

  /** A value is safe in every update to plain names of every text, beside values
      that settle, exactly when it settles. */
  lemma {:induction false} StableExactlyWhenSettled(v: Value)
    ensures Settles(Scalar(v)) <==>
      forall text: string, us: seq<Update> | AllPlain(us) && SettleBut(us, v) :: Stable(text, us)
  {
    if Settles(Scalar(v)) {
      forall text: string, us: seq<Update> | AllPlain(us) && SettleBut(us, v) ensures Stable(text, us) {
        assert ValuesSettle(us);
        EditingTextTwice(text, us);
      }
    } else {
      var text, us := UnsettledIsUnstable(v);
    }
  }

  lemma OneKeyText()
    ensures Render(OneKeyLines("model")) == "w:\n model: a\n"
  {
    assert Spaces(1) == " ";
    RenderTwo(OneKeyLines("model"), "w:", " model: a");
  }

  /** For instance a line feed inside a value. */
  lemma {:induction false} LineFeedGrows(us: seq<Update>)
    requires us == [Update("w", Some(Words("a\nb")), None)]
    ensures var text := "w:\n model: a\n"; |Updated(Updated(text, us), us)| > |Updated(text, us)|
  {
    assert "a\nb"[1] == '\n';
    OneKeyText();
    UnsettledGrows(us, "model", Words("a\nb"));
  }

  /** A rewritten line keeps no comment of its own. */
  lemma {:induction false} TrailingCommentIsLost(us: seq<Update>)
    requires us == [Update("w", Some(Words("b")), None)]
    ensures EditedAll(["w:", " model: " + "a # why"], us) == ["w:", " model: " + "b"]
  {
    ModelLine("a # why");
    ModelLine("b");
    SecondIsRewritten(["w:", " model: " + "a # why"], us, "model", "a # why", Words("b"));
  }

  lemma ModelLine(s: string)
    ensures Spaces(1) + ("model" + ": " + s) == " model: " + s
  {
    assert Spaces(1) == " ";
  }

  // ---- the lens on the flat layout

  /** Persona headers stand at column 0, so no key nested in a block is a persona's name. */
  ghost predicate Flat(lines: seq<string>, names: set<string>) {
    && (forall n | n in names :: ':' !in n)
    && forall i, n | 0 <= i < |lines| && n in names && Header(lines[i], n) :: Ends(lines[i])
  }

  lemma OneBlock(lines: seq<string>, names: set<string>, a: string, b: string, i: nat)
    requires Flat(lines, names) && a in names && b in names && i < |lines|
    requires Inside(lines, a, i) && Inside(lines, b, i)
    ensures a == b
  {
    var j :| 0 <= j <= i && Opens(lines, a, j, i);
    var k :| 0 <= k <= i && Opens(lines, b, k, i);
    assert Ends(lines[j]) && Ends(lines[k]);
    assert j == k;
    OneName(lines[j], a, b);
  }

  lemma OneName(line: string, a: string, b: string)
    requires Has(line, a) && Has(line, b) && ':' !in a && ':' !in b
    ensures a == b
  {
    OneKey(Strip(line), a, b);
    ColonAfter(b, a);
  }

  /** Line `i` gives persona `name` its `key`. */
  ghost predicate Gives(lines: seq<string>, name: string, key: string, i: nat)
    requires i < |lines|
  {
    Inside(lines, name, i) && !Header(lines[i], name) && Has(lines[i], key)
  }

  /** What follows the key. */
  function ValueOf(line: string, key: string): string
    requires Has(line, key)
  {
    HasBody(line, key);
    Strip(LStrip(line)[|key| + 1..])
  }

  lemma ColonFreeIsPlain(name: string)
    requires ':' !in name
    ensures Plain(name)
  {
    ColonAfter(name, "model");
    ColonAfter(name, "fallback");
  }

  lemma ColonAfter(s: string, prefix: string)
    ensures Starts(s, prefix + ":") ==> ':' in s
  {
    if Starts(s, prefix + ":") { assert s[|prefix|] == ':'; }
  }

  lemma ValueOfEntry(n: nat, key: string, v: Value)
    requires key in KEYS
    ensures Has(Spaces(n) + Entry(key, v), key)
    ensures ValueOf(Spaces(n) + Entry(key, v), key) == Strip(Scalar(v))
  {
    KeyIsColonFree(key);
    var body := Entry(key, v);
    EntryParts(key, Scalar(v));
    Shown(n, body);
    assert (" " + Scalar(v))[1..] == Scalar(v);
  }

  lemma EntryParts(key: string, value: string)
    ensures var body := key + ": " + value; body[..|key| + 1] == key + ":" && body[|key| + 1..] == " " + value
  {
  }

  /** On the flat layout, the same lines give the same keys to the same personas
      after the edit. A persona that was given a value for a key it has reads as
      that value; everything else reads as before. */
  lemma ReadsAsUpdated(lines: seq<string>, us: seq<Update>, names: set<string>, name: string, key: string, i: nat)
    requires Flat(lines, names) && name in names && key in KEYS && i < |lines|
    requires forall u <- us :: u.name in names
    requires forall a, b | 0 <= a < |us| && 0 <= b < |us| && us[a].name == us[b].name :: a == b
    ensures var out := EditedAll(lines, us);
            && |out| == |lines|
            && (Gives(out, name, key, i) <==> Gives(lines, name, key, i))
            && (Gives(lines, name, key, i) ==>
                  && (forall u <- us | u.name == name && Given(u, key).Some? ::
                        ValueOf(out[i], key) == Strip(Scalar(Given(u, key).value)))
                  && ((forall u <- us :: u.name == name ==> Given(u, key).None?) ==> out[i] == lines[i]))
  {
    var out := EditedAll(lines, us);
    var probe := Update(name, None, None);
    var all := us + [probe];
    forall u <- all ensures Plain(u.name) { ColonFreeIsPlain(u.name); }
    AlikeSelf(lines, all);
    LastWriteWins(lines, lines, us, all);
    assert probe in all;
    AlikeInside(lines, out, all, probe, i);
    assert Alike(lines[i], out[i], all);
    assert out[i] == Outcome(lines, lines, us, i);
    if Gives(lines, name, key, i) { GivenLineReads(lines, us, names, name, key, i, out[i]); }
  }

  /** The line that gives a persona its key, once the last write is in. */
  lemma GivenLineReads(lines: seq<string>, us: seq<Update>, names: set<string>, name: string, key: string, i: nat,
                       line: string)
    requires Flat(lines, names) && name in names && key in KEYS && i < |lines| && Gives(lines, name, key, i)
    requires forall u <- us :: u.name in names
    requires forall a, b | 0 <= a < |us| && 0 <= b < |us| && us[a].name == us[b].name :: a == b
    requires line == Outcome(lines, lines, us, i)
    ensures forall u <- us | u.name == name && Given(u, key).Some? ::
              Has(line, key) && ValueOf(line, key) == Strip(Scalar(Given(u, key).value))
    ensures (forall u <- us :: u.name == name ==> Given(u, key).None?) ==> line == lines[i]
  {
    forall u <- us | Touched(lines, u, i) ensures u.name == name && KeyOf(lines[i], u) == Some(key) {
      OneBlock(lines, names, u.name, name, i);
      TheKey(lines[i], u, key);
    }
    forall u <- us | u.name == name && Given(u, key).Some?
      ensures Has(line, key) && ValueOf(line, key) == Strip(Scalar(Given(u, key).value))
    {
      TheKeyGiven(lines[i], u, key);
      ValueOfEntry(Indent(lines[i]), key, Given(u, key).value);
      assert Touched(lines, u, i);
    }
  }

  /** On the flat layout updates to different personas commute. */
  lemma FlatUpdatesCommute(lines: seq<string>, names: set<string>, u: Update, v: Update)
    requires Flat(lines, names) && u.name in names && v.name in names && u.name != v.name
    ensures Commute(lines, u, v)
  {
    ColonFreeIsPlain(u.name);
    ColonFreeIsPlain(v.name);
    UpdatesCommute(lines, u, v);
    forall i | 0 <= i < |lines| && Touched(lines, u, i) && Touched(lines, v, i)
      ensures false
    {
      OneBlock(lines, names, u.name, v.name, i);
    }
  }

  lemma TheKey(line: string, u: Update, key: string)
    requires key in KEYS && Has(line, key) && KeyOf(line, u).Some?
    ensures KeyOf(line, u) == Some(key)
  {
    var other := KeyOf(line, u).value;
    KeyIsColonFree(key);
    KeyIsColonFree(other);
    OneName(line, key, other);
  }

  lemma TheKeyGiven(line: string, u: Update, key: string)
    requires key in KEYS && Has(line, key) && Given(u, key).Some?
    ensures KeyOf(line, u) == Some(key)
  {
    assert KeyOf(line, u).Some?;
    TheKey(line, u, key);
  }

  // ---- plainness is needed

  lemma FourLines(lines: seq<string>, name: string)
    requires |lines| == 4
    ensures Inside(lines, name, 0) <==> Header(lines[0], name)
    ensures Inside(lines, name, 1) <==> Header(lines[1], name) || (Inside(lines, name, 0) && !Ends(lines[1]))
    ensures Inside(lines, name, 2) <==> Header(lines[2], name) || (Inside(lines, name, 1) && !Ends(lines[2]))
    ensures Inside(lines, name, 3) <==> Header(lines[3], name) || (Inside(lines, name, 2) && !Ends(lines[3]))
  {
    InsideStep(lines, name, 0);
    InsideStep(lines, name, 1);
    InsideStep(lines, name, 2);
    InsideStep(lines, name, 3);
  }

  /** One line under the headers `w:` and ` v:`, and under a third line that is a
      header of `name`, holding `key`, until `v` rewrites it. */
  function Layout(third: string, key: string, value: string): seq<string> {
    ["w:", Spaces(1) + "v:", Spaces(1) + third, Spaces(1) + key + ": " + value]
  }

  function Sets(name: string, key: string, value: string): Update {
    Update(name,
           if key == "model" then Some(Words(value)) else None,
           if key == "fallback" then Some(Words(value)) else None)
  }

  /** For every name that is not plain there are updates, one of them to that name,
      which applied twice differ from applied once. */
  lemma UnplainNameBreaksEditing(name: string, key: string, other: string)
    requires {key, other} == KEYS && key != other && Starts(name, key + ":")
    ensures var us := [Sets("w", other, "1"), Sets(name, other, "2"), Sets("v", key, "m")];
            var lines := Layout(name + ":", other, "z");
            EditedAll(EditedAll(lines, us), us) != EditedAll(lines, us)
  {
    var w, n, v := Sets("w", other, "1"), Sets(name, other, "2"), Sets("v", key, "m");
    var head, flat := name + ":", key + ": m";
    assert head[..|key| + 1] == name[..|key| + 1] && flat[..|key| + 1] == key + ":";
    EditLayoutByW(head, key, other, "z", name);
    EditLayoutByName(head, key, other, "1", name);
    EditLayoutByV(head, key, other, "2", name);
    EditLayoutByW(flat, key, other, "2", name);
    EditLayoutByName(flat, key, other, "1", name);
    EditLayoutByV(flat, key, other, "1", name);
    NeverHeader(name, key);
    var once := Layout(flat, other, "2");
    assert EditedAll(Layout(head, other, "z"), [w, n, v]) == once by { Three(Layout(head, other, "z"), w, n, v); }
    assert EditedAll(once, [w, n, v]) == Layout(flat, other, "1") by { Three(once, w, n, v); }
    assert Layout(flat, other, "1")[3] != once[3] by {
      assert (Spaces(1) + other + ": " + "1")[|other| + 3] == '1'
             && (Spaces(1) + other + ": " + "2")[|other| + 3] == '2';
    }
  }

  /** Editing twice is editing once for every text and every update that names, of
      names that are not plain, at most this one: exactly when this one is plain. */
  lemma StableExactlyWhenPlain(name: string)
    ensures Plain(name) <==>
      forall lines: seq<string>, us: seq<Update> | (forall u <- us :: u.name == name || Plain(u.name)) ::
        EditedAll(EditedAll(lines, us), us) == EditedAll(lines, us)
  {
    if Plain(name) {
      forall lines: seq<string>, us: seq<Update> | (forall u <- us :: u.name == name || Plain(u.name))
        ensures EditedAll(EditedAll(lines, us), us) == EditedAll(lines, us)
      {
        EditingTwice(lines, us);
      }
    } else {
      var key, other := UnplainKeys(name);
      var us := [Sets("w", other, "1"), Sets(name, other, "2"), Sets("v", key, "m")];
      UnplainNameBreaksEditing(name, key, other);
      ColonFreeIsPlain("w");
      ColonFreeIsPlain("v");
      assert forall u <- us :: u.name == name || Plain(u.name);
    }
  }

  /** No line lies in both blocks and is given two values. */
  ghost predicate Agree(lines: seq<string>, u: Update, v: Update) {
    forall i | 0 <= i < |lines| && Touched(lines, u, i) && Touched(lines, v, i) ::
          Rewritten(lines[i], u) == Rewritten(lines[i], v)
  }

  /** Two updates that touch no line in common, whose order matters all the same. */
  lemma UnplainNameOrders(name: string, key: string, other: string)
    requires {key, other} == KEYS && key != other && Starts(name, key + ":")
    ensures var u, v, lines := Sets(name, other, "2"), Sets("v", key, "m"), Layout(name + ":", other, "z");
            && Agree(lines, u, v)
            && EditedAll(lines, [u, v]) == Layout(key + ": m", other, "2")
            && EditedAll(lines, [v, u]) == Layout(key + ": m", other, "z")
            && EditedAll(lines, [v, u]) != EditedAll(lines, [u, v])
            && EditedAll(lines, [v, u])[3] != Outcome(lines, lines, [v, u], 3)
  {
    var u, v := Sets(name, other, "2"), Sets("v", key, "m");
    var head, flat := name + ":", key + ": m";
    var lines := Layout(head, other, "z");
    assert head[..|key| + 1] == name[..|key| + 1] && flat[..|key| + 1] == key + ":";
    EditLayoutByName(head, key, other, "z", name);
    EditLayoutByV(head, key, other, "2", name);
    EditLayoutByV(head, key, other, "z", name);
    EditLayoutByName(flat, key, other, "z", name);
    NeverHeader(name, key);
    Two(lines, u, v);
    Two(lines, v, u);
    ValuesDiffer(other);
    OrderMatters(lines, u, v, key, other);
  }

  lemma ValuesDiffer(key: string)
    ensures Layout("", key, "2")[3] == Spaces(1) + key + ": " + "2" != Spaces(1) + key + ": " + "z"
    ensures forall third, fourth :: Layout(third, key, "2")[3] != Layout(fourth, key, "z")[3]
  {
    assert (Spaces(1) + key + ": " + "2")[|key| + 3] == '2' && (Spaces(1) + key + ": " + "z")[|key| + 3] == 'z';
  }

  lemma OrderMatters(lines: seq<string>, u: Update, v: Update, key: string, other: string)
    requires |lines| == 4 && {key, other} == KEYS && key != other
    requires Given(u, key).None? && Given(v, other).None?
    requires |EditedAll(lines, [v, u])| == 4
    requires Edited(lines, u)[3] != lines[3] && EditedAll(lines, [v, u])[3] == lines[3]
    ensures Agree(lines, u, v)
    ensures EditedAll(lines, [v, u])[3] != Outcome(lines, lines, [v, u], 3)
  {
    PairTouch(lines, v, u, 3);
    KeyIsColonFree(key);
    KeyIsColonFree(other);
    forall i | 0 <= i < |lines| && Touched(lines, u, i) && Touched(lines, v, i) ensures false {
      OneName(lines[i], KeyOf(lines[i], u).value, KeyOf(lines[i], v).value);
    }
  }

  lemma Two(lines: seq<string>, a: Update, b: Update)
    ensures EditedAll(lines, [a, b]) == Edited(Edited(lines, a), b)
  {
    assert [a, b][1..] == [b] && [b][1..] == [];
    assert EditedAll(Edited(lines, a), [b]) == Edited(Edited(lines, a), b);
  }

  /** Every line ends as the last update that touches it leaves it. */
  ghost predicate LastHolds(lines: seq<string>, us: seq<Update>) {
    && |EditedAll(lines, us)| == |lines|
    && forall i | 0 <= i < |lines| :: EditedAll(lines, us)[i] == Outcome(lines, lines, us, i)
  }

  /** The keys of an unplain name's update and of the one that unsettles it. */
  lemma UnplainKeys(name: string) returns (key: string, other: string)
    requires !Plain(name)
    ensures {key, other} == KEYS && key != other && Starts(name, key + ":")
  {
    key := if Starts(name, "model:") then "model" else "fallback";
    other := if Starts(name, "model:") then "fallback" else "model";
  }

  ghost predicate Commute(lines: seq<string>, u: Update, v: Update) {
    EditedAll(lines, [u, v]) == EditedAll(lines, [v, u])
  }

  /** Two updates, to this name and to a plain one, commute in every text just when
      they agree there: exactly when this name is plain. */
  lemma CommuteExactlyWhenPlain(name: string)
    ensures Plain(name) <==>
      forall lines: seq<string>, u: Update, v: Update | u.name == name && Plain(v.name) ::
        Commute(lines, u, v) <==> Agree(lines, u, v)
  {
    if Plain(name) {
      forall lines: seq<string>, u: Update, v: Update | u.name == name && Plain(v.name)
        ensures Commute(lines, u, v) <==> Agree(lines, u, v)
      {
        UpdatesCommute(lines, u, v);
      }
    } else {
      var key, other := UnplainKeys(name);
      UnplainNameOrders(name, key, other);
      ColonFreeIsPlain("v");
      assert !Commute(Layout(name + ":", other, "z"), Sets(name, other, "2"), Sets("v", key, "m"));
    }
  }

  /** The last write wins in every text, for updates to this name and plain ones:
      exactly when this name is plain. */
  lemma LastWriteExactlyWhenPlain(name: string)
    ensures Plain(name) <==>
      forall lines: seq<string>, us: seq<Update> | (forall u <- us :: u.name == name || Plain(u.name)) ::
            LastHolds(lines, us)
  {
    if Plain(name) {
      forall lines: seq<string>, us: seq<Update> | (forall u <- us :: u.name == name || Plain(u.name))
        ensures LastHolds(lines, us)
      {
        AlikeSelf(lines, us);
        LastWriteWins(lines, lines, us, us);
      }
    } else {
      var key, other := UnplainKeys(name);
      UnplainNameOrders(name, key, other);
      ColonFreeIsPlain("v");
      var us := [Sets("v", key, "m"), Sets(name, other, "2")];
      assert forall u <- us :: u.name == name || Plain(u.name);
      assert !LastHolds(Layout(name + ":", other, "z"), us);
    }
  }

  lemma Three(lines: seq<string>, a: Update, b: Update, c: Update)
    ensures EditedAll(lines, [a, b, c]) == Edited(Edited(Edited(lines, a), b), c)
  {
    assert [a, b, c][1..] == [b, c] && [b, c][1..] == [c] && [c][1..] == [];
    assert EditedAll(Edited(Edited(lines, a), b), [c]) == Edited(Edited(Edited(lines, a), b), c);
  }

  lemma NeverHeader(name: string, key: string)
    requires key in KEYS && Starts(name, key + ":")
    ensures !Starts(key + ": m", name + ":")
  {
    var t := name + ":";
    assert t[|name|] == ':' && |name| >= |key| + 1 && (key + ": m")[|key| + 1] == ' '
           && (key + ": m")[|key| + 2] == 'm';
  }

  lemma OtherStart(body: string, name: string)
    requires body != "" && name != "" && body[0] != name[0]
    ensures !Starts(body, name + ":")
  {
    assert (name + ":")[0] == name[0];
  }

  lemma FirstLine(key: string, name: string)
    requires key in KEYS && Starts(name, key + ":")
    ensures forall k | k in KEYS + {"v", name} :: !Has("w:", k)
    ensures Has("w:", "w")
  {
    assert Spaces(0) + "w:" == "w:";
    Shown(0, "w:");
    assert name[0] == (key + ":")[0] == key[0];
    forall k | k in KEYS + {"v", name} ensures !Has("w:", k) { OtherStart("w:", k); }
    assert "w" + ":" == "w:";
  }

  lemma SecondLine(key: string, name: string)
    requires key in KEYS && Starts(name, key + ":")
    ensures forall k | k in KEYS + {"w", name} :: !Has(Spaces(1) + "v:", k)
    ensures Has(Spaces(1) + "v:", "v") && !Ends(Spaces(1) + "v:")
  {
    Shown(1, "v:");
    assert name[0] == (key + ":")[0] == key[0];
    forall k | k in KEYS + {"w", name} ensures !Has(Spaces(1) + "v:", k) { OtherStart("v:", k); }
    assert "v" + ":" == "v:";
  }

  /** An indented line that holds `key`. */
  lemma KeyLine(body: string, key: string, other: string, name: string)
    requires {key, other} == KEYS && key != other && Starts(body, key + ":")
    ensures var line := Spaces(1) + body;
            && Has(line, key) && !Has(line, other) && !Has(line, "w") && !Has(line, "v")
            && (Has(line, name) <==> Starts(body, name + ":"))
            && (Starts(name, other + ":") ==> !Has(line, name))
            && !Ends(line) && Indent(line) == 1
  {
    assert body[0] == (key + ":")[0] == key[0];
    Shown(1, body);
    OtherStart(body, other);
    OtherStart(body, "w");
    OtherStart(body, "v");
    if Starts(name, other + ":") {
      assert name[0] == (other + ":")[0] == other[0];
      OtherStart(body, name);
    }
  }

  /** How the layout looks to the three updates. */
  ghost predicate Looks(lines: seq<string>, third: string, key: string, other: string, name: string) {
    && |lines| == 4
    && Has(lines[0], "w") && !Has(lines[0], "v") && !Has(lines[0], name) && !Has(lines[0], key) && !Has(lines[0], other)
    && Has(lines[1], "v") && !Has(lines[1], "w") && !Has(lines[1], name) && !Has(lines[1], key) && !Has(lines[1], other)
    && Has(lines[2], key) && !Has(lines[2], "w") && !Has(lines[2], "v") && !Has(lines[2], other)
    && (Has(lines[2], name) <==> Starts(third, name + ":"))
    && Has(lines[3], other) && !Has(lines[3], "w") && !Has(lines[3], "v") && !Has(lines[3], name) && !Has(lines[3], key)
    && !Ends(lines[1]) && !Ends(lines[2]) && !Ends(lines[3])
    && Indent(lines[2]) == 1 == Indent(lines[3])
  }

  lemma {:induction false} LayoutLooks(third: string, key: string, other: string, value: string, name: string)
    requires {key, other} == KEYS && key != other && Starts(name, key + ":") && Starts(third, key + ":")
    ensures Looks(Layout(third, other, value), third, key, other, name)
  {
    var last := other + ": " + value;
    FirstLine(key, name);
    SecondLine(key, name);
    KeyLine(third, key, other, name);
    assert last[..|other| + 1] == other + ":";
    KeyLine(last, other, key, name);
    assert Layout(third, other, value)[3] == Spaces(1) + last;
  }

  lemma SetsGives(name: string, key: string, other: string, value: string, line: string)
    requires {key, other} == KEYS && key != other
    ensures var u := Sets(name, key, value);
            && u.name == name && Given(u, key) == Some(Words(value)) && Given(u, other).None?
            && (Has(line, key) ==> Rewritten(line, u) == Spaces(Indent(line)) + key + ": " + value)
            && (KeyOf(line, u).Some? <==> Has(line, key))
  {
  }

  lemma EditOneLine(lines: seq<string>, u: Update, at: nat, line: string)
    requires at < |lines| && EditedLine(lines, u, at) == line
    requires forall i | 0 <= i < |lines| && i != at :: EditedLine(lines, u, i) == lines[i]
    ensures Edited(lines, u) == lines[at := line]
  {
  }

  lemma {:induction false} EditLayoutByW(third: string, key: string, other: string, value: string, name: string)
    requires {key, other} == KEYS && key != other && Starts(name, key + ":") && Starts(third, key + ":")
    ensures Edited(Layout(third, other, value), Sets("w", other, "1")) == Layout(third, other, "1")
  {
    var lines, u := Layout(third, other, value), Sets("w", other, "1");
    LayoutLooks(third, key, other, value, name);
    FourLines(lines, "w");
    forall i | 0 <= i < 4
      ensures EditedLine(lines, u, i) == if i == 3 then Spaces(1) + other + ": " + "1" else lines[i]
    {
      SetsGives("w", other, key, "1", lines[i]);
    }
    EditOneLine(lines, u, 3, Spaces(1) + other + ": " + "1");
  }

  lemma {:induction false} EditLayoutByName(third: string, key: string, other: string, value: string, name: string)
    requires {key, other} == KEYS && key != other && Starts(name, key + ":") && Starts(third, key + ":")
    ensures Edited(Layout(third, other, value), Sets(name, other, "2"))
            == Layout(third, other, if Starts(third, name + ":") then "2" else value)
  {
    var lines, u := Layout(third, other, value), Sets(name, other, "2");
    var now := if Starts(third, name + ":") then "2" else value;
    LayoutLooks(third, key, other, value, name);
    FourLines(lines, name);
    forall i | 0 <= i < 4
      ensures EditedLine(lines, u, i) == if i == 3 then Spaces(1) + other + ": " + now else lines[i]
    {
      SetsGives(name, other, key, "2", lines[i]);
    }
    EditOneLine(lines, u, 3, Spaces(1) + other + ": " + now);
  }

  lemma {:induction false} EditLayoutByV(third: string, key: string, other: string, value: string, name: string)
    requires {key, other} == KEYS && key != other && Starts(name, key + ":") && Starts(third, key + ":")
    ensures Edited(Layout(third, other, value), Sets("v", key, "m")) == Layout(key + ": m", other, value)
  {
    var lines, u := Layout(third, other, value), Sets("v", key, "m");
    LayoutLooks(third, key, other, value, name);
    FourLines(lines, "v");
    forall i | 0 <= i < 4
      ensures EditedLine(lines, u, i) == if i == 2 then Spaces(1) + key + ": " + "m" else lines[i]
    {
      SetsGives("v", key, other, "m", lines[i]);
    }
    EditOneLine(lines, u, 2, Spaces(1) + key + ": " + "m");
    ThirdReplaced(third, key, other, value);
  }

  lemma ThirdReplaced(third: string, key: string, other: string, value: string)
    ensures Layout(third, other, value)[2 := Spaces(1) + key + ": " + "m"] == Layout(key + ": m", other, value)
  {
    assert Spaces(1) + key + ": " + "m" == Spaces(1) + (key + ": m");
  }
}
