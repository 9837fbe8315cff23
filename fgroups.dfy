// fgroups: reads lines "fingerprint name", groups the names by fingerprint, and prints
// every group of two or more names, one name per line, groups separated by a blank line.

module FGroups {
  datatype Option<T> = None | Some(value: T)

  /** The two characters `splitn(2, [' ', '\t'])` splits at. */
  predicate IsSeparator(c: char)
  {
    c == ' ' || c == '\t'
  }

  /** `char::is_whitespace`: the Unicode White_Space characters, which `trim_start` drops. */
  predicate IsWhitespace(c: char)
  {
    c == ' ' || '\t' <= c <= '\r' || c == '\U{0085}' || c == '\U{00A0}' || c == '\U{1680}' ||
    '\U{2000}' <= c <= '\U{200A}' || c == '\U{2028}' || c == '\U{2029}' || c == '\U{202F}' ||
    c == '\U{205F}' || c == '\U{3000}'
  }

  /** The position of the first space or tab, if any. */
  function FirstSeparator(text: string): (i: Option<nat>)
    ensures i.None? <==> forall k :: 0 <= k < |text| ==> !IsSeparator(text[k])
    ensures i.Some? ==> i.value < |text| && IsSeparator(text[i.value])
    ensures i.Some? ==> forall k :: 0 <= k < i.value ==> !IsSeparator(text[k])
  {
    if text == [] then None
    else if IsSeparator(text[0]) then Some(0)
    else match FirstSeparator(text[1..])
      case None => None
      case Some(j) => Some(j + 1)
  }

  /** `text.splitn(2, [' ', '\t'])`: the text cut at its first space or tab, or the whole
      text alone when it has neither. */
  function SplitOnce(text: string): (parts: seq<string>)
    ensures |parts| == 1 || |parts| == 2
  {
    match FirstSeparator(text)
    case None => [text]
    case Some(i) => [text[..i], text[i + 1..]]
  }

  /** The split yields one part, the whole text, exactly when there is no space or tab;
      otherwise the part before the first one and the part after it, the separator itself
      dropped. */
  lemma SplitOnceMeaning(text: string)
    ensures |SplitOnce(text)| == 1 <==> forall k :: 0 <= k < |text| ==> !IsSeparator(text[k])
    ensures |SplitOnce(text)| == 1 ==> SplitOnce(text)[0] == text
    ensures |SplitOnce(text)| == 2 ==>
      var parts := SplitOnce(text);
      |parts[0]| < |text| && IsSeparator(text[|parts[0]|]) &&
      text == parts[0] + [text[|parts[0]|]] + parts[1] &&
      forall k :: 0 <= k < |parts[0]| ==> !IsSeparator(parts[0][k])
  {
    match FirstSeparator(text)
    case None =>
    case Some(i) =>
      assert text == text[..i] + [text[i]] + text[i + 1..];
  }

  /** `trim_start`: the text with its leading whitespace dropped; trailing whitespace stays. */
  function TrimStart(s: string): string
  {
    if s != [] && IsWhitespace(s[0]) then TrimStart(s[1..]) else s
  }

  /** The trimmed text is a suffix of s, what was dropped is all whitespace, and it does not
      itself start with whitespace. */
  lemma {:induction false} TrimStartMeaning(s: string)
    ensures |TrimStart(s)| <= |s| && TrimStart(s) == s[|s| - |TrimStart(s)|..]
    ensures forall k :: 0 <= k < |s| - |TrimStart(s)| ==> IsWhitespace(s[k])
    ensures TrimStart(s) == [] || !IsWhitespace(TrimStart(s)[0])
  {
    if s != [] && IsWhitespace(s[0]) {
      TrimStartMeaning(s[1..]);
      var r := TrimStart(s);
      forall k | 0 < k < |s| - |r|
        ensures IsWhitespace(s[k])
      {
        assert s[k] == s[1..][k - 1];
      }
    }
  }

  /** One input line as `assemble_map` reads it: its fingerprint and name, or None for a line
      with no space or tab, which is discarded. */
  function ParseLine(text: string): Option<(string, string)>
  {
    var split := SplitOnce(text);
    if |split| != 2 then None else Some((split[0], TrimStart(split[1])))
  }

  /** A line is discarded exactly when it has no space or tab; otherwise its fingerprint is
      everything before the first one and its name is everything after it with leading
      whitespace trimmed and trailing whitespace kept. */
  lemma ParseLineMeaning(text: string)
    ensures ParseLine(text).None? <==> forall k :: 0 <= k < |text| ==> !IsSeparator(text[k])
    ensures ParseLine(text).Some? ==>
      var (fingerprint, name) := ParseLine(text).value;
      |fingerprint| < |text| && text[..|fingerprint|] == fingerprint &&
      IsSeparator(text[|fingerprint|]) &&
      (forall k :: 0 <= k < |fingerprint| ==> !IsSeparator(fingerprint[k])) &&
      name == TrimStart(text[|fingerprint| + 1..])
  {
    var split := SplitOnce(text);
    SplitOnceMeaning(text);
    if |split| == 2 {
      assert text[..|split[0]|] == split[0];
      assert text[|split[0]| + 1..] == split[1];
    }
  }

  /** The names one line adds to group g: its name when it is kept with fingerprint g. */
  function Contribution(text: string, g: string): seq<string>
  {
    match ParseLine(text)
    case Some((fingerprint, name)) => if fingerprint == g then [name] else []
    case None => []
  }

  /** The reference grouping: the names of the kept lines whose fingerprint is g, in input
      order. */
  function NamesOf(lines: seq<string>, g: string): seq<string>
  {
    if lines == [] then [] else NamesOf(lines[..|lines| - 1], g) + Contribution(lines[|lines| - 1], g)
  }

  /** The map `assemble_map` has built from the lines read so far. */
  ghost predicate GroupsOf(groups: map<string, seq<string>>, lines: seq<string>)
  {
    (forall g :: g in groups <==> NamesOf(lines, g) != []) &&
    (forall g :: g in groups ==> groups[g] == NamesOf(lines, g))
  }

  /** A discarded line leaves the map as it was. */
  lemma SkippedStep(groups: map<string, seq<string>>, lines: seq<string>, i: nat)
    requires i < |lines| && ParseLine(lines[i]).None? && GroupsOf(groups, lines[..i])
    ensures GroupsOf(groups, lines[..i + 1])
  {
    assert lines[..i + 1][..i] == lines[..i];
    assert forall g :: NamesOf(lines[..i + 1], g) == NamesOf(lines[..i], g);
  }

  /** The names of group g after one more line: the earlier ones, then the line's own name
      when it is kept with fingerprint g. */
  lemma NamesOfNext(lines: seq<string>, i: nat, g: string)
    requires i < |lines|
    ensures NamesOf(lines[..i + 1], g) == NamesOf(lines[..i], g) + Contribution(lines[i], g)
  {
    var prefix := lines[..i + 1];
    assert prefix[..i] == lines[..i] && prefix[i] == lines[i];
  }

  /** A kept line appends its name to its own group, created empty if new, and to no other. */
  lemma KeptStep(groups: map<string, seq<string>>, lines: seq<string>, i: nat, group: string, name: string)
    requires i < |lines| && ParseLine(lines[i]) == Some((group, name)) && GroupsOf(groups, lines[..i])
    ensures GroupsOf(groups[group := (if group in groups then groups[group] else []) + [name]], lines[..i + 1])
  {
    var after := groups[group := (if group in groups then groups[group] else []) + [name]];
    forall g
      ensures g in after <==> NamesOf(lines[..i + 1], g) != []
      ensures g in after ==> after[g] == NamesOf(lines[..i + 1], g)
    {
      NamesOfNext(lines, i, g);
      assert Contribution(lines[i], g) == if g == group then [name] else [];
    }
  }

  /** Inserting an empty group when the key is new and then appending to it is one append
      to the group or to an empty one. */
  lemma InsertThenAppend(groups: map<string, seq<string>>, group: string, name: string)
    ensures var m := if group !in groups then groups[group := []] else groups;
      m[group := m[group] + [name]] == groups[group := (if group in groups then groups[group] else []) + [name]]
  {
  }

  /** `assemble_map`: for each line, split it, skip it when it has no separator, and append
      the trimmed name to its fingerprint's group, creating the group on first sight. The
      map holds exactly the fingerprints of kept lines, each with its names in input
      order. */
  method AssembleMap(lines: seq<string>) returns (groups: map<string, seq<string>>)
    ensures forall g :: g in groups <==> NamesOf(lines, g) != []
    ensures forall g :: g in groups ==> groups[g] == NamesOf(lines, g)
  {
    groups := map[];
    for i := 0 to |lines|
      invariant GroupsOf(groups, lines[..i])
    {
      var text := lines[i];
      var split := SplitOnce(text);
      if |split| != 2 {
        SkippedStep(groups, lines, i);
        continue;
      }
      var group := split[0];
      var name := TrimStart(split[1]);
      assert ParseLine(text) == Some((group, name));
      KeptStep(groups, lines, i, group, name);
      InsertThenAppend(groups, group, name);
      if group !in groups {
        groups := groups[group := []];
      }
      groups := groups[group := groups[group] + [name]];
    }
    assert lines[..|lines|] == lines;
  }

  /** Grouping a concatenation of inputs concatenates their groups: names keep input order. */
  lemma {:induction false} NamesOfAppend(a: seq<string>, b: seq<string>, g: string)
    ensures NamesOf(a + b, g) == NamesOf(a, g) + NamesOf(b, g)
    decreases |b|
  {
    if b == [] {
      assert a + b == a;
    } else {
      var b' := b[..|b| - 1];
      assert (a + b)[..|a + b| - 1] == a + b';
      assert (a + b)[|a + b| - 1] == b[|b| - 1];
      NamesOfAppend(a, b', g);
    }
  }

  /** A kept line's name is in its own fingerprint's group. */
  lemma NamesOfHasLine(lines: seq<string>, i: nat)
    requires i < |lines| && ParseLine(lines[i]).Some?
    ensures ParseLine(lines[i]).value.1 in NamesOf(lines, ParseLine(lines[i]).value.0)
  {
    var g, name := ParseLine(lines[i]).value.0, ParseLine(lines[i]).value.1;
    var front := lines[..i + 1];
    assert Contribution(lines[i], g) == [name];
    NamesOfNext(lines, i, g);
    assert NamesOf(front, g) == NamesOf(lines[..i], g) + [name];
    assert name in NamesOf(front, g);
    NamesOfSplit(lines, i + 1, g);
  }

  /** The groups of the lines are those of a prefix followed by those of the rest. */
  lemma NamesOfSplit(lines: seq<string>, k: nat, g: string)
    requires k <= |lines|
    ensures NamesOf(lines, g) == NamesOf(lines[..k], g) + NamesOf(lines[k..], g)
  {
    assert lines[..k] + lines[k..] == lines;
    NamesOfAppend(lines[..k], lines[k..], g);
  }

  /** Every name of a group comes from a kept line with exactly that fingerprint. */
  lemma {:induction false} NamesOfOrigin(lines: seq<string>, g: string, name: string)
    requires name in NamesOf(lines, g)
    ensures exists i :: 0 <= i < |lines| && ParseLine(lines[i]) == Some((g, name))
  {
    var n := |lines| - 1;
    var entry := ParseLine(lines[n]);
    if entry.Some? && entry.value == (g, name) {
      assert ParseLine(lines[n]) == Some((g, name));
    } else {
      NamesOfOrigin(lines[..n], g, name);
      var i :| 0 <= i < n && ParseLine(lines[..n][i]) == Some((g, name));
      assert lines[..n][i] == lines[i];
    }
  }

  // ---------------------------------------------------------------------------------
  // Printing

  /** What `print_names` writes: each name on a line of its own. */
  function NameLines(names: seq<string>): string
  {
    if names == [] then [] else NameLines(names[..|names| - 1]) + names[|names| - 1] + "\n"
  }

  /** The text of each printed group, in iteration order: only groups of two or more. */
  function PrintedBlocks(groups: map<string, seq<string>>, order: seq<string>): seq<string>
    requires forall k :: k in order ==> k in groups
  {
    if order == [] then []
    else
      var earlier := PrintedBlocks(groups, order[..|order| - 1]);
      var names := groups[order[|order| - 1]];
      if |names| >= 2 then earlier + [NameLines(names)] else earlier
  }

  /** The blocks with a blank line between consecutive ones and none before the first. */
  function Join(blocks: seq<string>): string
  {
    if blocks == [] then []
    else if |blocks| == 1 then blocks[0]
    else Join(blocks[..|blocks| - 1]) + "\n" + blocks[|blocks| - 1]
  }

  /** `print_names`. */
  method PrintNames(names: seq<string>) returns (text: string)
    ensures text == NameLines(names)
  {
    text := [];
    for j := 0 to |names|
      invariant text == NameLines(names[..j])
    {
      assert names[..j + 1][..j] == names[..j];
      text := text + names[j] + "\n";
    }
    assert names[..|names|] == names;
  }

  /** `print_groups` over the map's values in the order `order` lists its keys (a HashMap
      fixes no order): groups of at most one name are skipped, and the separator, empty
      before the first printed group and a newline after it, is printed before each
      group. */
  method PrintGroups(groups: map<string, seq<string>>, order: seq<string>) returns (out: string)
    requires forall k :: k in groups <==> k in order
    requires forall i, j :: 0 <= i < j < |order| ==> order[i] != order[j]
    ensures out == Join(PrintedBlocks(groups, order))
  {
    var separator := "";
    out := [];
    for i := 0 to |order|
      invariant out == Join(PrintedBlocks(groups, order[..i]))
      invariant separator == if PrintedBlocks(groups, order[..i]) == [] then "" else "\n"
    {
      PrintedBlocksNext(groups, order, i);
      var names := groups[order[i]];
      if |names| <= 1 {
        continue;
      }
      JoinNext(PrintedBlocks(groups, order[..i]), NameLines(names));
      out := out + separator;
      var text := PrintNames(names);
      out := out + text;
      separator := "\n";
    }
    assert order[..|order|] == order;
  }

  /** One more key in the iteration order adds its group's block when it has two names. */
  lemma PrintedBlocksNext(groups: map<string, seq<string>>, order: seq<string>, i: nat)
    requires forall k :: k in order ==> k in groups
    requires i < |order|
    ensures order[i] in groups
    ensures PrintedBlocks(groups, order[..i + 1]) ==
      if |groups[order[i]]| >= 2 then PrintedBlocks(groups, order[..i]) + [NameLines(groups[order[i]])]
      else PrintedBlocks(groups, order[..i])
  {
    assert order[..i + 1][..i] == order[..i];
    assert order[..i + 1][i] == order[i];
  }

  /** Joining one more block puts a newline before it unless it is the first. */
  lemma JoinNext(blocks: seq<string>, block: string)
    ensures Join(blocks + [block]) == (if blocks == [] then "" else Join(blocks) + "\n") + block
  {
    assert (blocks + [block])[..|blocks|] == blocks;
  }

  /** The printed blocks are exactly the groups of two or more names. */
  lemma {:induction false} PrintedBlocksAre(groups: map<string, seq<string>>, order: seq<string>, block: string)
    requires forall k :: k in order ==> k in groups
    ensures block in PrintedBlocks(groups, order) <==>
      exists k :: k in order && |groups[k]| >= 2 && block == NameLines(groups[k])
  {
    if order != [] {
      var n := |order| - 1;
      PrintedBlocksAre(groups, order[..n], block);
      var k := order[n];
      if block in PrintedBlocks(groups, order) && !(block in PrintedBlocks(groups, order[..n])) {
        assert k in order && |groups[k]| >= 2 && block == NameLines(groups[k]);
      }
      if exists k' :: k' in order && |groups[k']| >= 2 && block == NameLines(groups[k']) {
        var k' :| k' in order && |groups[k']| >= 2 && block == NameLines(groups[k']);
        if k' != k {
          var i :| 0 <= i < |order| && order[i] == k';
          assert order[..n][i] == k';
        }
      }
    }
  }

  /** When no fingerprint has two names nothing is printed. */
  lemma {:induction false} NoPairsNoOutput(groups: map<string, seq<string>>, order: seq<string>)
    requires forall k :: k in order ==> k in groups && |groups[k]| <= 1
    ensures Join(PrintedBlocks(groups, order)) == []
  {
    if order != [] {
      NoPairsNoOutput(groups, order[..|order| - 1]);
    }
  }

  /** Two groups of two names print as the first pair, a blank line, and the second pair. */
  lemma PrintTestVector()
    ensures Join([NameLines(["Ann", "Bo"]), NameLines(["Cy", "Di"])]) == "Ann\nBo\n\nCy\nDi\n"
  {
    assert NameLines(["Ann"]) == "Ann\n";
    assert NameLines(["Ann", "Bo"]) == "Ann\nBo\n";
    assert NameLines(["Cy"]) == "Cy\n";
    assert NameLines(["Cy", "Di"]) == "Cy\nDi\n";
  }
}
