/** load_mapping and id_to_name: node ids to protein names. */
module Names {
  import opened Outcomes
  import opened Strings

  /** The stripped, non-blank lines of the mapping file, in file order. */
  function LoadMapping(lines: seq<string>): (names: seq<string>)
    ensures |names| <= |lines|
    ensures forall i :: 0 <= i < |names| ==> names[i] != [] && Strip(names[i]) == names[i]
  {
    if lines == [] then []
    else
      var s := Strip(lines[0]);
      StripTrimmed(s);
      (if s == [] then [] else [s]) + LoadMapping(lines[1..])
  }

  /** The mapping of two files read one after the other is the mapping of
      the first followed by that of the second. */
  lemma {:induction false} LoadMappingConcat(a: seq<string>, b: seq<string>)
    ensures LoadMapping(a + b) == LoadMapping(a) + LoadMapping(b)
  {
    if a != [] {
      assert (a + b)[1..] == a[1..] + b;
      LoadMappingConcat(a[1..], b);
    } else {
      assert a + b == b;
    }
  }

  /** A blank line takes no id: every later line moves up by one. */
  lemma BlankLineSkipped(a: seq<string>, blank: string, b: seq<string>)
    requires AllSpace(blank)
    ensures LoadMapping(a + [blank] + b) == LoadMapping(a + b)
  {
    LoadMappingConcat(a + [blank], b);
    LoadMappingConcat(a, [blank]);
    LoadMappingConcat(a, b);
  }

  /** With no blank line, node i is named by line i, stripped. */
  lemma {:induction false} LoadMappingNoBlank(lines: seq<string>)
    requires forall i :: 0 <= i < |lines| ==> !AllSpace(lines[i])
    ensures |LoadMapping(lines)| == |lines|
    ensures forall i :: 0 <= i < |lines| ==> LoadMapping(lines)[i] == Strip(lines[i])
  {
    if lines != [] {
      LoadMappingNoBlank(lines[1..]);
    }
  }

  /** id_to_name: the name of a known id, the decimal form of any other,
      spelled as str() spells it (DecimalFormUnique: no other spelling has
      that form and reads back as the id). */
  function IdToName(names: seq<string>, id: int): (r: string)
    ensures 0 <= id < |names| ==> r == names[id]
    ensures !(0 <= id < |names|) ==> IsToken(r) && DecimalForm(r, id) && ParseInt(r) == Some(id)
  {
    if 0 <= id < |names| then names[id]
    else
      ParseIntToString(id);
      IntToString(id)
  }
}
