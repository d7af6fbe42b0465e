/**
 * Rendering the watched command's argument vector as one shell-like line
 * for display: arguments in order, one space apart; an argument that is
 * empty or holds a shell metacharacter is wrapped in double quotes; `$` is
 * always escaped, and inside quotes so are the characters that would end
 * or change the quoted text; control characters are shown as Rust's
 * `char::escape_default` shows them.
 *
 * The lossy conversion of OS strings to text is not modelled: arguments are
 * strings already.
 */
module CmdLine {
  import opened Wrappers

  /** Characters whose presence makes an argument quoted. */
  const QuoteTriggers: set<char> := {'"', '\'', '*', '[', ' ', '&', '<', '>', '|', ';'}

  /** A table of characters and their replacements, searched front to back. */
  type EscapeTable = seq<(char, string)>

  /** Replacements inside double quotes. */
  const QuotedTable: EscapeTable := [('"', "\\\""), ('\'', "\\'"), ('*', "\\*"), ('[', "\\["), ('$', "\\$")]

  /** Replacements outside quotes. */
  const PlainTable: EscapeTable := [('$', "\\$")]

  /** Whether an argument is shown quoted: it is empty or holds a trigger character. */
  predicate ShouldQuote(s: string) {
    s == [] || exists i :: 0 <= i < |s| && s[i] in QuoteTriggers
  }

  /** Rust's `char::is_control`: the C0 and C1 control characters. */
  predicate IsControl(c: char) {
    c as int < 0x20 || 0x7f <= c as int < 0xa0
  }

  /** The replacement of the first entry of `table` for `c`. */
  function Lookup(table: EscapeTable, c: char): (r: Option<string>)
    ensures r.Some? <==> exists k :: 0 <= k < |table| && table[k].0 == c
    ensures r.Some? ==> exists k :: 0 <= k < |table| && table[k] == (c, r.value)
    decreases |table|
  {
    if table == [] then None
    else if table[0].0 == c then Some(table[0].1)
    else Lookup(table[1..], c)
  }

  function HexDigit(d: nat): char
    requires d < 16
  {
    if d < 10 then ('0' as int + d) as char else ('a' as int + d - 10) as char
  }

  /** Lower-case hexadecimal digits of `n` without leading zeros. */
  function Hex(n: nat): string
    decreases n
  {
    if n < 16 then [HexDigit(n)] else Hex(n / 16) + [HexDigit(n % 16)]
  }

  /** Rust's `char::escape_default`. */
  function EscapeDefault(c: char): string {
    if c == '\t' then "\\t"
    else if c == '\r' then "\\r"
    else if c == '\n' then "\\n"
    else if c == '\'' then "\\'"
    else if c == '"' then "\\\""
    else if c == '\\' then "\\\\"
    else if 0x20 <= c as int < 0x7f then [c]
    else "\\u{" + Hex(c as int) + "}"
  }

  /** Whether `escape` stops at `c`: a control character or one the table replaces. */
  predicate Special(table: EscapeTable, c: char) {
    IsControl(c) || Lookup(table, c).Some?
  }

  /** The position of the first special character of `s`, as `str::find` gives it. */
  function FirstSpecial(table: EscapeTable, s: string): (r: Option<nat>)
    ensures r.Some? ==> r.value < |s| && Special(table, s[r.value])
    ensures r.Some? ==> forall k :: 0 <= k < r.value ==> !Special(table, s[k])
    ensures r.None? ==> forall k :: 0 <= k < |s| ==> !Special(table, s[k])
    decreases |s|
  {
    if s == [] then None
    else if Special(table, s[0]) then Some(0)
    else match FirstSpecial(table, s[1..])
      case None => None
      case Some(k) => Some(k + 1)
  }

  /** How one character is shown: its replacement, its default escape if it is a control, or itself. */
  function EscapeChar(table: EscapeTable, c: char): string {
    match Lookup(table, c)
    case Some(t) => t
    case None => if IsControl(c) then EscapeDefault(c) else [c]
  }

  /** How a text is shown: each character by `EscapeChar`, in order. */
  function Escaped(table: EscapeTable, s: string): string
    decreases |s|
  {
    if s == [] then [] else EscapeChar(table, s[0]) + Escaped(table, s[1..])
  }

  /** How one argument is shown. */
  function RenderArg(arg: string): string {
    if ShouldQuote(arg) then "\"" + Escaped(QuotedTable, arg) + "\"" else Escaped(PlainTable, arg)
  }

  /** How a whole argument vector is shown: the arguments in order, one space apart. */
  function Render(cmd: seq<string>): string
    decreases |cmd|
  {
    if cmd == [] then ""
    else if |cmd| == 1 then RenderArg(cmd[0])
    else Render(cmd[..|cmd| - 1]) + " " + RenderArg(cmd[|cmd| - 1])
  }

  // ---------------------------------------------------------------------
  //  Properties of the rendering

  /** Escaping works character by character, so it distributes over concatenation. */
  lemma {:induction false} EscapedAppend(table: EscapeTable, a: string, b: string)
    ensures Escaped(table, a + b) == Escaped(table, a) + Escaped(table, b)
    decreases |a|
  {
    if a == [] {
      assert a + b == b;
    } else {
      assert (a + b)[1..] == a[1..] + b;
      EscapedAppend(table, a[1..], b);
    }
  }

  /** A text without special characters is shown unchanged. */
  lemma {:induction false} EscapedPlain(table: EscapeTable, s: string)
    requires forall k :: 0 <= k < |s| ==> !Special(table, s[k])
    ensures Escaped(table, s) == s
    decreases |s|
  {
    if s != [] {
      EscapedPlain(table, s[1..]);
    }
  }

  /**
   * Where the first special character sits at `i`, the shown text is the
   * plain part before it, then the character's escape, then the rest shown.
   */
  lemma EscapedAtSpecial(table: EscapeTable, s: string, i: nat)
    requires FirstSpecial(table, s) == Some(i)
    ensures Escaped(table, s) == s[..i] + EscapeChar(table, s[i]) + Escaped(table, s[i + 1..])
    ensures EscapeChar(table, s[i]) == if Lookup(table, s[i]).Some? then Lookup(table, s[i]).value else EscapeDefault(s[i])
  {
    assert s == s[..i] + s[i..];
    EscapedAppend(table, s[..i], s[i..]);
    EscapedPlain(table, s[..i]);
    assert s[i..][1..] == s[i + 1..];
  }

  /** One round of the escaping loop keeps the text still to come. */
  lemma EscapeStep(table: EscapeTable, s: string, i: nat, done: string)
    requires FirstSpecial(table, s) == Some(i)
    ensures var lookup := Lookup(table, s[i]);
      done + s[..i] + (if lookup.Some? then lookup.value else EscapeDefault(s[i])) + Escaped(table, s[i + 1..]) ==
      done + Escaped(table, s)
  {
    EscapedAtSpecial(table, s, i);
    var lookup := Lookup(table, s[i]);
    var a := s[..i];
    var b := if lookup.Some? then lookup.value else EscapeDefault(s[i]);
    var c := Escaped(table, s[i + 1..]);
    assert Escaped(table, s) == a + b + c;
    assert done + a + b + c == done + (a + b + c);
  }

  /** No escape in either table introduces a control character. */
  lemma {:induction false} EscapedHasNoControl(table: EscapeTable, s: string)
    requires forall k, j :: 0 <= k < |table| && 0 <= j < |table[k].1| ==> !IsControl(table[k].1[j])
    ensures forall j :: 0 <= j < |Escaped(table, s)| ==> !IsControl(Escaped(table, s)[j])
    decreases |s|
  {
    if s != [] {
      EscapedHasNoControl(table, s[1..]);
      var c := s[0];
      var head := EscapeChar(table, c);
      if Lookup(table, c).None? && IsControl(c) {
        HexDigitsOnly(c as int);
      }
      assert forall j :: 0 <= j < |head| ==> !IsControl(head[j]);
    }
  }

  predicate IsHexDigit(c: char) {
    '0' <= c <= '9' || 'a' <= c <= 'f'
  }

  /** The digits of a `\u{...}` escape are lower-case hexadecimal digits. */
  lemma {:induction false} HexDigitsOnly(n: nat)
    ensures forall j :: 0 <= j < |Hex(n)| ==> IsHexDigit(Hex(n)[j])
    decreases n
  {
    if n >= 16 {
      HexDigitsOnly(n / 16);
    }
  }

  /** The characters the two tables escape. */
  const ShellSpecials: set<char> := {'"', '\'', '*', '[', '$'}

  /**
   * A table whose every entry replaces one of `ShellSpecials` by a
   * backslash and that character.
   */
  predicate BackslashTable(table: EscapeTable) {
    forall k :: 0 <= k < |table| ==> table[k].0 in ShellSpecials && table[k].1 == ['\\', table[k].0]
  }

  /** Every character of `r` that `table` escapes is preceded by a backslash. */
  predicate KeysPrefixed(table: EscapeTable, r: string) {
    forall j :: 0 <= j < |r| && Lookup(table, r[j]).Some? ==> 0 < j && r[j - 1] == '\\'
  }

  lemma PrefixedAppend(table: EscapeTable, a: string, b: string)
    requires KeysPrefixed(table, a) && KeysPrefixed(table, b)
    ensures KeysPrefixed(table, a + b)
  {
    var r := a + b;
    forall j | 0 <= j < |r| && Lookup(table, r[j]).Some? ensures 0 < j && r[j - 1] == '\\' {
      if j >= |a| {
        assert r[j] == b[j - |a|];
        assert r[j - 1] == b[j - 1 - |a|];
      }
    }
  }

  /** Each character's escape keeps the escaped characters behind a backslash. */
  lemma EscapeCharPrefixed(table: EscapeTable, c: char)
    requires BackslashTable(table)
    ensures KeysPrefixed(table, EscapeChar(table, c))
  {
    match Lookup(table, c) {
      case Some(t) =>
        var k :| 0 <= k < |table| && table[k] == (c, t);
        LookupOutside(table, '\\');
        assert EscapeChar(table, c) == ['\\', c];
      case None =>
        if IsControl(c) {
          EscapeDefaultIsPlain(table, c);
        }
    }
  }

  /**
   * Every character the table escapes is preceded by a backslash wherever
   * it appears in the shown text: inside quotes no `"` ends the quoted
   * text early, and no `$` is left for a shell to expand.
   */
  lemma {:induction false} EscapedCharsArePrefixed(table: EscapeTable, s: string)
    requires BackslashTable(table)
    ensures KeysPrefixed(table, Escaped(table, s))
    decreases |s|
  {
    if s != [] {
      EscapedCharsArePrefixed(table, s[1..]);
      EscapeCharPrefixed(table, s[0]);
      PrefixedAppend(table, EscapeChar(table, s[0]), Escaped(table, s[1..]));
    }
  }

  /** A backslash table has no entry for a character outside `ShellSpecials`. */
  lemma LookupOutside(table: EscapeTable, c: char)
    requires BackslashTable(table) && c !in ShellSpecials
    ensures Lookup(table, c).None?
  {
  }

  /** The default escape of a control character uses only a backslash, letters, digits and braces. */
  lemma EscapeDefaultIsPlain(table: EscapeTable, c: char)
    requires BackslashTable(table) && IsControl(c)
    ensures forall j :: 0 <= j < |EscapeDefault(c)| ==> Lookup(table, EscapeDefault(c)[j]).None?
  {
    HexDigitsOnly(c as int);
    var e := EscapeDefault(c);
    forall j | 0 <= j < |e| ensures Lookup(table, e[j]).None? {
      LookupOutside(table, e[j]);
    }
  }

  /** Both tables are backslash tables. */
  lemma TablesAreBackslashTables()
    ensures BackslashTable(QuotedTable) && BackslashTable(PlainTable)
  {
  }

  /** A shown argument is never empty: an empty argument is shown as `""`. */
  lemma RenderArgNonEmpty(arg: string)
    ensures |RenderArg(arg)| > 0
    ensures arg == [] ==> RenderArg(arg) == "\"\""
  {
    if !ShouldQuote(arg) {
      assert arg != [];
      assert Escaped(PlainTable, arg) == EscapeChar(PlainTable, arg[0]) + Escaped(PlainTable, arg[1..]);
    }
  }

  /** A shown argument opens with `"` exactly when it is quoted. */
  lemma RenderArgOpensWithQuote(arg: string)
    ensures |RenderArg(arg)| > 0 && (RenderArg(arg)[0] == '"' <==> ShouldQuote(arg))
  {
    RenderArgNonEmpty(arg);
    if !ShouldQuote(arg) {
      var c := arg[0];
      assert c !in QuoteTriggers;
      assert Escaped(PlainTable, arg) == EscapeChar(PlainTable, c) + Escaped(PlainTable, arg[1..]);
      PlainCharOpening(c);
    }
  }

  /** Outside quotes a character's escape opens with a backslash or with the character itself. */
  lemma PlainCharOpening(c: char)
    ensures |EscapeChar(PlainTable, c)| > 0
    ensures EscapeChar(PlainTable, c)[0] == '\\' || EscapeChar(PlainTable, c)[0] == c
  {
  }

  /** A shown argument holds no control character: each one is escaped. */
  lemma RenderArgHasNoControl(arg: string)
    ensures forall j :: 0 <= j < |RenderArg(arg)| ==> !IsControl(RenderArg(arg)[j])
  {
    TablesAreBackslashTables();
    if ShouldQuote(arg) {
      var e := Escaped(QuotedTable, arg);
      ReplacementsHaveNoControl(QuotedTable);
      EscapedHasNoControl(QuotedTable, arg);
      var r := "\"" + e + "\"";
      assert forall j :: 0 <= j < |r| ==> r[j] == '"' || r[j] == e[j - 1];
    } else {
      ReplacementsHaveNoControl(PlainTable);
      EscapedHasNoControl(PlainTable, arg);
    }
  }

  /** A backslash table's replacements hold no control character. */
  lemma ReplacementsHaveNoControl(table: EscapeTable)
    requires BackslashTable(table)
    ensures forall k, j :: 0 <= k < |table| && 0 <= j < |table[k].1| ==> !IsControl(table[k].1[j])
  {
  }

  /**
   * Inside the quotes of a quoted argument every `"`, `'`, `*`, `[` and `$`
   * is preceded by a backslash; in an unquoted argument every `$` is.
   */
  lemma RenderArgEscapesSpecials(arg: string)
    ensures ShouldQuote(arg) ==>
      RenderArg(arg) == "\"" + Escaped(QuotedTable, arg) + "\"" &&
      KeysPrefixed(QuotedTable, Escaped(QuotedTable, arg))
    ensures !ShouldQuote(arg) ==> KeysPrefixed(PlainTable, RenderArg(arg))
  {
    TablesAreBackslashTables();
    EscapedCharsArePrefixed(QuotedTable, arg);
    EscapedCharsArePrefixed(PlainTable, arg);
  }

  /** The shown line is empty exactly when there are no arguments. */
  lemma RenderEmpty(cmd: seq<string>)
    ensures Render(cmd) == "" <==> cmd == []
  {
    if |cmd| == 1 {
      RenderArgNonEmpty(cmd[0]);
    } else if |cmd| > 1 {
      RenderArgNonEmpty(cmd[|cmd| - 1]);
    }
  }

  /** Showing one more argument appends a space, unless it is the first, and that argument. */
  lemma RenderStep(cmd: seq<string>, j: nat)
    requires j < |cmd|
    ensures Render(cmd[..j + 1]) == (if j == 0 then "" else Render(cmd[..j]) + " ") + RenderArg(cmd[j])
  {
    assert cmd[..j + 1][..j] == cmd[..j];
  }

  // ---------------------------------------------------------------------
  //  The imperative rendering

  /**
   * Appends the shown form of `s` to `out`: copies the plain stretch up to
   * the next special character, appends that character's escape, and
   * carries on after it.
   */
  method Escape(s: string, out: string, table: EscapeTable) returns (res: string)
    ensures res == out + Escaped(table, s)
  {
    var rest := s;
    res := out;
    var found := FirstSpecial(table, rest);
    while found.Some?
      invariant res + Escaped(table, rest) == out + Escaped(table, s)
      invariant found == FirstSpecial(table, rest)
      decreases |rest|
    {
      var i := found.value;
      var ch := rest[i];
      var lookup := Lookup(table, ch);
      var replacement := if lookup.Some? then lookup.value else EscapeDefault(ch);
      EscapeStep(table, rest, i, res);
      res := res + rest[..i];
      res := res + replacement;
      rest := rest[i + 1..];
      found := FirstSpecial(table, rest);
    }
    EscapedPlain(table, rest);
    res := res + rest;
  }

  /** Appends one argument in its shown form: quoted and escaped, or only escaped. */
  method PushArg(out: string, arg: string) returns (res: string)
    ensures res == out + RenderArg(arg)
  {
    if ShouldQuote(arg) {
      res := out + "\"";
      res := Escape(arg, res, QuotedTable);
      res := res + "\"";
    } else {
      res := Escape(arg, out, PlainTable);
    }
  }

  /** Shows an argument vector on one line, as `Render` describes. */
  method CmdToString(cmd: seq<string>) returns (out: string)
    ensures out == Render(cmd)
  {
    out := "";
    for j := 0 to |cmd|
      invariant out == Render(cmd[..j])
    {
      RenderEmpty(cmd[..j]);
      RenderStep(cmd, j);
      if out != "" {
        out := out + " ";
      }
      out := PushArg(out, cmd[j]);
    }
    assert cmd[..|cmd|] == cmd;
  }
}
