/** `_parsePackageInfo` (backup.js:34-41): one record block of
    `pacman -Qi` read as a dictionary from field names to values. */
module PackageInfo {
  import opened JsString
  import opened Helpers

  /** A record as `_parsePackageInfo` returns it: a value is `None` when
      its line had no `:` (the destructured `v` is `undefined`). */
  type Info = Obj<string, Option<string>>

  /** The field name of a line: the part before the first `:`, trimmed. */
  function EntryKey(l: string): string {
    Trim(SplitOn(l, ":")[0])
  }

  /** The value of a line: the part between the first and the second `:`,
      trimmed, or `None` when the line has no `:`. */
  function EntryValue(l: string): Option<string> {
    var parts := SplitOn(l, ":");
    if |parts| > 1 then Some(Trim(parts[1])) else None
  }

  /** The record that the assignments `r[k] = v`, one per line in order,
      build from `{}`. */
  function InfoOf(lines: seq<string>): (r: Info)
    ensures r.Valid()
  {
    if |lines| == 0 then Empty()
    else
      var l := lines[|lines| - 1];
      InfoOf(lines[..|lines| - 1]).Put(EntryKey(l), EntryValue(l))
  }

  /** `t.split('\n')`. */
  function Lines(t: string): seq<string> {
    SplitOn(t, "\n")
  }

  /** What `_parsePackageInfo(t)` returns. */
  function ParsedInfo(t: string): Info {
    InfoOf(Lines(t))
  }

  /** `_parsePackageInfo(t)`. */
  method ParsePackageInfo(t: string) returns (r: Info)
    ensures r == ParsedInfo(t)
  {
    var lines := Lines(t);
    r := Empty();
    for i := 0 to |lines|
      invariant r == InfoOf(lines[..i])
    {
      var parts := SplitOn(lines[i], ":");
      var k := Trim(parts[0]);
      if |parts| > 1 {
        r := r.Put(k, Some(Trim(parts[1])));
      } else {
        r := r.Put(k, None);
      }
      assert lines[..i + 1][..i] == lines[..i];
    }
    assert lines[..|lines|] == lines;
  }

  /** The field names appear once each, in the order of the lines that
      first name them; a field is present exactly when some line names
      it. */
  lemma {:induction false} InfoKeys(lines: seq<string>)
    ensures InfoOf(lines).keys == FirstSeen(MapSeq(EntryKey, lines))
    ensures forall k :: k in InfoOf(lines).vals <==> k in MapSeq(EntryKey, lines)
  {
    if |lines| > 0 {
      var lines' := lines[..|lines| - 1];
      var l := lines[|lines| - 1];
      assert lines == lines' + [l];
      InfoKeys(lines');
      MapSeqAppend(EntryKey, lines', l);
      FirstSeenAppend(MapSeq(EntryKey, lines'), EntryKey(l));
    }
  }

  /** The last line that names a field gives its value. */
  lemma {:induction false} LastWins(lines: seq<string>, j: nat)
    requires j < |lines|
    requires forall j' :: j < j' < |lines| ==> EntryKey(lines[j']) != EntryKey(lines[j])
    ensures EntryKey(lines[j]) in InfoOf(lines).vals
    ensures InfoOf(lines).vals[EntryKey(lines[j])] == EntryValue(lines[j])
  {
    var lines' := lines[..|lines| - 1];
    assert forall j' :: j < j' < |lines'| ==> lines'[j'] == lines[j'];
    if j < |lines| - 1 {
      assert lines'[j] == lines[j];
      LastWins(lines', j);
    }
  }

  /** A line `k:v` with no further `:` in it gives the field `trim(k)`
      the value `trim(v)`. */
  lemma {:induction false} EntryOfPair(k: string, v: string)
    requires ':' !in k && ':' !in v
    ensures EntryKey(k + ":" + v) == Trim(k)
    ensures EntryValue(k + ":" + v) == Some(Trim(v))
  {
    assert k + ":" + v == k + [':'] + v;
    SplitOnCharPrefix(k, ':', v);
    SplitOnNoChar(v, ':');
  }

  /** Text after a second `:` is cut off: `k:v:rest` gives the field
      `trim(k)` the value `trim(v)`. */
  lemma {:induction false} EntryTruncated(k: string, v: string, rest: string)
    requires ':' !in k && ':' !in v
    ensures EntryKey(k + ":" + v + ":" + rest) == Trim(k)
    ensures EntryValue(k + ":" + v + ":" + rest) == Some(Trim(v))
  {
    var tail := v + [':'] + rest;
    assert k + ":" + v + ":" + rest == k + [':'] + tail;
    assert SplitOn(tail, ":") == [v] + SplitOn(rest, ":") by {
      SplitOnCharPrefix(v, ':', rest);
    }
    assert SplitOn(k + [':'] + tail, ":") == [k] + SplitOn(tail, ":") by {
      SplitOnCharPrefix(k, ':', tail);
    }
  }

  /** A line without `:` names the field `trim(l)` and gives it no
      value. */
  lemma {:induction false} EntryWithoutColon(l: string)
    requires ':' !in l
    ensures EntryKey(l) == Trim(l)
    ensures EntryValue(l) == None
  {
    SplitOnNoChar(l, ':');
  }

  /** Every character of a value is a character of its line. */
  lemma {:induction false} EntryValueChars(l: string)
    ensures forall c :: EntryValue(l).Some? && c in EntryValue(l).value ==> c in l
  {
    SplitOnChars(l, ":");
    var parts := SplitOn(l, ":");
    if |parts| > 1 {
      assert parts[1] in parts;
    }
  }

  /** A text holding a `:` splits at it into more than one piece. */
  lemma {:induction false} SplitAtColon(l: string)
    requires ':' in l
    ensures |SplitOn(l, ":")| > 1
    decreases |l|
  {
    if l[0] != ':' {
      assert ':' in l[1..] by {
        var i :| 0 <= i < |l| && l[i] == ':';
        assert l[1..][i - 1] == ':';
      }
      SplitAtColon(l[1..]);
    }
  }

  /** A line has a value exactly when it holds a `:`. */
  lemma {:induction false} EntryHasValue(l: string)
    ensures EntryValue(l).Some? <==> ':' in l
  {
    if ':' in l {
      SplitAtColon(l);
    } else {
      SplitOnNoChar(l, ':');
    }
  }

  /** Neither a field name nor a value holds a `:`: a value ends at the
      second `:` of its line. */
  lemma {:induction false} EntryNoColon(l: string)
    ensures ':' !in EntryKey(l)
    ensures EntryValue(l).Some? ==> ':' !in EntryValue(l).value
  {
    var parts := SplitOn(l, ":");
    SplitOnCharPieces(l, ':');
    assert parts[0] in parts;
    if |parts| > 1 {
      assert parts[1] in parts;
    }
  }

  /** When no line holds a newline, no value of the record does. */
  lemma {:induction false} InfoValuesOneLine(lines: seq<string>)
    requires forall i :: 0 <= i < |lines| ==> '\n' !in lines[i]
    ensures forall k :: k in InfoOf(lines).vals && InfoOf(lines).vals[k].Some? ==>
      '\n' !in InfoOf(lines).vals[k].value
  {
    if |lines| > 0 {
      var lines' := lines[..|lines| - 1];
      InfoValuesOneLine(lines');
      EntryValueChars(lines[|lines| - 1]);
    }
  }

  /** `i.Name`: the value of the field `Name`, `None` when the record has
      no such field or the field has no value. */
  function Field(info: Info, name: string): Option<string> {
    if name in info.vals then info.vals[name] else None
  }

  /** The name of the package a `pacman -Qi` record block describes. */
  function NameOf(block: string): Option<string> {
    Field(ParsedInfo(block), "Name")
  }

  /** The name is the value on the last line naming the field `Name`. */
  lemma {:induction false} NameFromLine(block: string, j: nat)
    requires j < |Lines(block)| && EntryKey(Lines(block)[j]) == "Name"
    requires forall j' :: j < j' < |Lines(block)| ==> EntryKey(Lines(block)[j']) != "Name"
    ensures NameOf(block) == EntryValue(Lines(block)[j])
  {
    LastWins(Lines(block), j);
  }

  /** A block in which no line names the field `Name` has no name. */
  lemma {:induction false} NameMissing(block: string)
    requires forall j :: 0 <= j < |Lines(block)| ==> EntryKey(Lines(block)[j]) != "Name"
    ensures NameOf(block) == None
  {
    var lines := Lines(block);
    InfoKeys(lines);
    var ks := MapSeq(EntryKey, lines);
    assert forall i :: 0 <= i < |ks| ==> ks[i] != "Name";
    assert "Name" !in ks;
  }
}
