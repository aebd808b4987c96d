/** InlineIdsNamingStrategy: a JSON property name "name #id" carries both the
    node's name and its id. Parsing follows the regular expression
    `([A-Za-z0-9]+) #(-?[0-9a-f]+)\s*$` searched with `Matcher.find`, which
    takes the leftmost position where a match starts; printing joins the two
    parts again. */
module InlineIds {
  import opened Wrappers
  import opened JsonAst

  // ---- character classes of the pattern -------------------------------------

  /** `[A-Za-z0-9]`. */
  predicate IsAlnum(c: char) {
    ('A' <= c <= 'Z') || ('a' <= c <= 'z') || ('0' <= c <= '9')
  }

  /** `[0-9a-f]`: lower-case hexadecimal digits only. */
  predicate IsHexDigit(c: char) {
    ('0' <= c <= '9') || ('a' <= c <= 'f')
  }

  /** `\s` of java.util.regex: space, tab, newline, vertical tab, form feed, return. */
  predicate IsSpace(c: char) {
    c == ' ' || c == '\t' || c == '\n' || c == '\U{000B}' || c == '\U{000C}' || c == '\r'
  }

  /** The line terminators before which `$` may match at the end of the input. */
  predicate IsLineTerminator(c: char) {
    c == '\n' || c == '\r' || c == '\U{0085}' || c == '\U{2028}' || c == '\U{2029}'
  }

  predicate AllSpace(t: string) {
    forall k | 0 <= k < |t| :: IsSpace(t[k])
  }

  /** `\s*$` matches the whole of `t`: whitespace, possibly followed by one
      final line terminator. */
  predicate AtEnd(t: string) {
    AllSpace(t) || (|t| > 0 && IsLineTerminator(t[|t| - 1]) && AllSpace(t[..|t| - 1]))
  }

  /** A text the group `([A-Za-z0-9]+)` can capture. */
  predicate IsWord(t: string) {
    |t| > 0 && forall k | 0 <= k < |t| :: IsAlnum(t[k])
  }

  /** A text the group `(-?[0-9a-f]+)` can capture. */
  predicate IsIdText(t: string) {
    var digits := if |t| > 0 && t[0] == '-' then t[1..] else t;
    |digits| > 0 && forall k | 0 <= k < |digits| :: IsHexDigit(digits[k])
  }

  // ---- the greedy runs ------------------------------------------------------

  /** The end of the run of alphanumerics starting at `i`. */
  function AlnumEnd(s: string, i: nat): (j: nat)
    requires i <= |s|
    ensures i <= j <= |s|
    ensures forall k | i <= k < j :: IsAlnum(s[k])
    ensures j < |s| ==> !IsAlnum(s[j])
    decreases |s| - i
  {
    if i < |s| && IsAlnum(s[i]) then AlnumEnd(s, i + 1) else i
  }

  /** The end of the run of hexadecimal digits starting at `i`. */
  function HexEnd(s: string, i: nat): (j: nat)
    requires i <= |s|
    ensures i <= j <= |s|
    ensures forall k | i <= k < j :: IsHexDigit(s[k])
    ensures j < |s| ==> !IsHexDigit(s[j])
    decreases |s| - i
  {
    if i < |s| && IsHexDigit(s[i]) then HexEnd(s, i + 1) else i
  }

  // ---- matching -------------------------------------------------------------

  /** A match: where it starts, and the two captured groups. */
  datatype Match = Match(start: nat, name: string, id: string)

  /** Where the match ends: after the name, " #" and the id. */
  function MatchEnd(m: Match): nat {
    m.start + |m.name| + 2 + |m.id|
  }

  /** `m` is a match of the pattern in `s`: `s` holds the name, " #" and the id
      at `m.start`, and only `\s*$` follows. */
  predicate Splits(s: string, m: Match) {
    && MatchEnd(m) <= |s|
    && s[m.start..MatchEnd(m)] == m.name + " #" + m.id
    && IsWord(m.name) && IsIdText(m.id)
    && AtEnd(s[MatchEnd(m)..])
  }

  /** The pattern tried at position `i`. Both greedy runs are forced: a shorter
      name would be followed by an alphanumeric instead of " ", and a shorter
      id by a hexadecimal digit instead of `\s` or the end. An optional "-"
      that is not followed by a digit cannot be skipped either, since "-" is
      not a digit. */
  function MatchAt(s: string, i: nat): (r: Option<Match>)
    requires i <= |s|
    ensures r.Some? ==> r.value.start == i && Splits(s, r.value)
  {
    var j := AlnumEnd(s, i);
    if j == i || j + 2 > |s| || s[j] != ' ' || s[j + 1] != '#' then None
    else
      var k := j + 2;
      var h := if k < |s| && s[k] == '-' then k + 1 else k;
      var e := HexEnd(s, h);
      if e == h || !AtEnd(s[e..]) then None
      else
        var m := Match(i, s[i..j], s[k..e]);
        assert s[i..e] == s[i..j] + " #" + s[k..e];
        assert IsIdText(m.id) by {
          if h == k + 1 { assert m.id[1..] == s[h..e]; }
        }
        Some(m)
  }

  /** `Matcher.find()`: the first position from `i` on where the pattern matches. */
  function FindFrom(s: string, i: nat): (r: Option<Match>)
    requires i <= |s|
    ensures r.Some? ==> i <= r.value.start && Splits(s, r.value)
    ensures r.Some? ==> MatchAt(s, r.value.start) == r
    decreases |s| - i
  {
    match MatchAt(s, i)
    case Some(m) => Some(m)
    case None => if i == |s| then None else FindFrom(s, i + 1)
  }

  /** The match `find` returns is the leftmost one from `i` on, and when it
      returns none the pattern matches nowhere from `i` on. */
  lemma {:induction false} FindFromIsLeftmost(s: string, i: nat)
    requires i <= |s|
    ensures var r := FindFrom(s, i);
      && (r.Some? ==> forall k | i <= k < r.value.start :: MatchAt(s, k).None?)
      && (r.None? ==> forall k | i <= k <= |s| :: MatchAt(s, k).None?)
    decreases |s| - i
  {
    if MatchAt(s, i).None? && i < |s| {
      FindFromIsLeftmost(s, i + 1);
      var r := FindFrom(s, i);
      assert r == FindFrom(s, i + 1);
      if r.Some? {
        forall k | i <= k < r.value.start ensures MatchAt(s, k).None? {
          if k > i {
            assert i + 1 <= k;
          }
        }
      } else {
        forall k | i <= k <= |s| ensures MatchAt(s, k).None? {
          if k > i {
            assert i + 1 <= k;
          }
        }
      }
    }
  }

  // ---- the naming strategy -------------------------------------------------

  /** `parseName`: a null name gives an identifier with null name and id; a
      name with a match is split into its two groups; any other name is kept
      as it is, with a null id. */
  function ParseName(name: Option<string>): (r: Identifier)
    ensures r.classes == []
    ensures name.None? ==> r.name.None? && r.id.None?
    ensures name.Some? ==> r.name.Some?
  {
    match name
    case None => Identifier(None, None, [])
    case Some(n) =>
      match FindFrom(n, 0)
      case None => Identifier(Some(n), None, [])
      case Some(m) => Identifier(Some(m.name), Some(m.id), [])
  }

  /** Java's string concatenation prints a null string as "null". */
  function Text(t: Option<string>): string {
    if t.Some? then t.value else "null"
  }

  /** `toJacksonName`: "name #id" when the id is set, otherwise the bare name. */
  function ToJacksonName(ident: Identifier): (r: Option<string>)
    ensures ident.id.None? ==> r == ident.name
    ensures ident.id.Some? ==> r.Some? && |r.value| == |Text(ident.name)| + 2 + |ident.id.value|
  {
    if ident.id.Some? then Some(Text(ident.name) + " #" + ident.id.value) else ident.name
  }

  /** `toJacksonInArray`: the single pair ("@id", id). */
  function ToJacksonInArray(ident: Identifier): (r: seq<(string, Option<string>)>)
    ensures |r| == 1 && r[0].0 == "@id" && r[0].1 == ident.id
  {
    [("@id", ident.id)]
  }

  // ---- properties ------------------------------------------------------------

  /** A name without "#" never matches, so parsing keeps it verbatim with a null id. */
  lemma NoHashKeptVerbatim(n: string)
    requires '#' !in n
    ensures ParseName(Some(n)) == Identifier(Some(n), None, [])
  {
  }

  /** A parsed id comes from a match whose name group is the whole run of
      alphanumerics before " #": the match is the leftmost one, and a match
      one position earlier would otherwise exist. */
  lemma ParseNameSound(n: string)
    requires ParseName(Some(n)).id.Some?
    ensures var r := ParseName(Some(n));
      exists m: Match :: Splits(n, m) && m.name == r.name.value && m.id == r.id.value
        && (m.start == 0 || !IsAlnum(n[m.start - 1]))
  {
    var m := FindFrom(n, 0).value;
    FindFromIsLeftmost(n, 0);
    if m.start > 0 && IsAlnum(n[m.start - 1]) {
      MatchExtendsLeft(n, m.start);
      assert false;
    }
    assert Splits(n, m);
  }

  /** A match preceded by an alphanumeric means the pattern already matches
      one position earlier, with the longer name. */
  lemma MatchExtendsLeft(s: string, i: nat)
    requires 0 < i <= |s| && IsAlnum(s[i - 1]) && MatchAt(s, i).Some?
    ensures MatchAt(s, i - 1).Some?
  {
    assert AlnumEnd(s, i - 1) == AlnumEnd(s, i);
  }

  /** A name at the start of the text is split exactly, with trailing
      whitespace allowed. */
  lemma SplitsWholeName(a: string, d: string, w: string)
    requires IsWord(a) && IsIdText(d) && AllSpace(w)
    ensures ParseName(Some(a + " #" + d + w)) == Identifier(Some(a), Some(d), [])
  {
    var s := a + " #" + d + w;
    var j := |a|;
    AlnumEndAt(s, 0, j);
    var k := j + 2;
    var h := if k < |s| && s[k] == '-' then k + 1 else k;
    var e := k + |d|;
    assert s[k..e] == d;
    assert h == if d[0] == '-' then k + 1 else k;
    HexEndAt(s, h, e);
    assert s[e..] == w;
    assert s[0..j] == a && s[j] == ' ' && s[j + 1] == '#';
    MatchAtParts(s, j, e);
  }

  /** The pattern matches at 0 once its greedy runs are known: the name run
      ends at `j` before " #", and the id run ends at `e` before `\s*$`. */
  lemma MatchAtParts(s: string, j: nat, e: nat)
    requires 0 < j && j + 2 <= |s| && s[j] == ' ' && s[j + 1] == '#' && AlnumEnd(s, 0) == j
    requires var k := j + 2; var h := if k < |s| && s[k] == '-' then k + 1 else k;
      h < e <= |s| && HexEnd(s, h) == e && AtEnd(s[e..])
    ensures MatchAt(s, 0) == Some(Match(0, s[0..j], s[j + 2..e]))
  {
  }

  /** `AlnumEnd` stops at the first non-alphanumeric. */
  lemma {:induction false} AlnumEndAt(s: string, i: nat, j: nat)
    requires i <= j <= |s|
    requires forall k | i <= k < j :: IsAlnum(s[k])
    requires j < |s| && !IsAlnum(s[j])
    ensures AlnumEnd(s, i) == j
    decreases j - i
  {
    if i < j {
      AlnumEndAt(s, i + 1, j);
    }
  }

  /** `HexEnd` stops at the first character that is not a hexadecimal digit. */
  lemma {:induction false} HexEndAt(s: string, i: nat, j: nat)
    requires i <= j <= |s|
    requires forall k | i <= k < j :: IsHexDigit(s[k])
    requires j == |s| || !IsHexDigit(s[j])
    ensures HexEnd(s, i) == j
    decreases j - i
  {
    if i < j {
      HexEndAt(s, i + 1, j);
    }
  }

  /** Round trip: printing an identifier whose name is alphanumeric and whose
      id has the id syntax, and parsing the result, gives back name and id. */
  lemma RoundTrip(ident: Identifier)
    requires ident.name.Some? && IsWord(ident.name.value)
    requires ident.id.Some? && IsIdText(ident.id.value)
    ensures var r := ParseName(ToJacksonName(ident));
      r.name == ident.name && r.id == ident.id
  {
    assert ident.name.value + " #" + ident.id.value + "" == ident.name.value + " #" + ident.id.value;
    SplitsWholeName(ident.name.value, ident.id.value, "");
  }

  /** The split is lossy for names with a space: only the last word before
      " #" survives as the name. */
  lemma SpaceInNameIsLost()
    ensures ParseName(Some("a b #1")) == Identifier(Some("b"), Some("1"), [])
  {
    var s := "a b #1";
    assert MatchAt(s, 0).None? by {
      AlnumEndAt(s, 0, 1);
    }
    assert MatchAt(s, 1).None?;
    AlnumEndAt(s, 2, 3);
    HexEndAt(s, 5, 6);
    assert s[2..3] == "b" && s[5..6] == "1";
    assert MatchAt(s, 2) == Some(Match(2, "b", "1"));
  }
}
