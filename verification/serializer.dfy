/**
 * `serialize`: every record rendered as one line, the lines joined by newlines, with a
 * blank last line added when the document does not already end with one.
 */
module Serializer {
  import opened Base
  import opened Text
  import opened Line
  import opened Config

  /** The `IndexError` of `res[-1]` on a document without records. */
  datatype Error = EmptyDocument

  /** One rendered line per record, in order. */
  function RenderLines(doc: Doc): (lines: seq<string>)
    ensures |lines| == |doc|
    ensures forall i | 0 <= i < |doc| :: lines[i] == RenderItem(doc[i])
  {
    if doc == [] then [] else RenderLines(doc[..|doc| - 1]) + [RenderItem(doc[|doc| - 1])]
  }

  /** The lines handed to `'\n'.join`: the rendered lines, then a blank one unless the last already is. */
  function OutputLines(doc: Doc): (r: Result<seq<string>, Error>)
    ensures r.Failure? <==> doc == []
    ensures r.Success? ==>
              && r.value != [] && r.value[|r.value| - 1] == ""
              && |doc| <= |r.value| <= |doc| + 1
              && r.value[..|doc|] == RenderLines(doc)
    ensures r.Success? ==> (|r.value| == |doc| <==> RenderItem(doc[|doc| - 1]) == "")
  {
    if doc == [] then Failure(EmptyDocument)
    else
      var lines := RenderLines(doc);
      if lines[|lines| - 1] != "" then Success(lines + [""]) else Success(lines)
  }

  function Serialize(doc: Doc): (r: Result<string, Error>)
    ensures r.Failure? <==> doc == []
  {
    var lines :- OutputLines(doc);
    Success(Join(lines, '\n'))
  }

  /** The rendered lines that end up followed by a newline: all but a final blank one. */
  function Kept(doc: Doc): seq<string>
    requires doc != []
  {
    var lines := RenderLines(doc);
    if lines[|lines| - 1] == "" then lines[..|lines| - 1] else lines
  }

  /** Joining lines whose last one is blank puts a newline after each of the others. */
  lemma {:induction false} JoinBlankLast(lines: seq<string>)
    ensures Join(lines + [""], '\n') == Concat(Terminated(lines))
  {
    if lines == [] {
      assert lines + [""] == [""];
    } else {
      assert (lines + [""])[1..] == lines[1..] + [""];
      JoinBlankLast(lines[1..]);
    }
  }

  lemma {:induction false} TerminatedAt(lines: seq<string>)
    ensures |Terminated(lines)| == |lines|
    ensures forall i | 0 <= i < |lines| :: Terminated(lines)[i] == lines[i] + "\n"
  {
    if lines != [] {
      TerminatedAt(lines[1..]);
    }
  }

  /** Text made of newline-terminated lines ends with a newline, unless there are none. */
  lemma {:induction false} ConcatTerminatedEnds(lines: seq<string>)
    ensures var text := Concat(Terminated(lines));
            lines == [] <==> text == []
    ensures lines != [] ==> Concat(Terminated(lines))[|Concat(Terminated(lines))| - 1] == '\n'
  {
    if lines != [] {
      ConcatTerminatedEnds(lines[1..]);
      var rest := Concat(Terminated(lines[1..]));
      assert Concat(Terminated(lines)) == (lines[0] + "\n") + rest;
    }
  }

  /**
   * The serialized text is every rendered line followed by a newline, except that a
   * final blank record adds nothing; so the text is empty or ends with a newline.
   */
  lemma SerializeText(doc: Doc)
    requires doc != []
    ensures Serialize(doc) == Success(Concat(Terminated(Kept(doc))))
    ensures Serialize(doc).value == [] || Serialize(doc).value[|Serialize(doc).value| - 1] == '\n'
  {
    var lines := RenderLines(doc);
    if lines[|lines| - 1] == "" {
      assert lines == Kept(doc) + [""];
    }
    JoinBlankLast(Kept(doc));
    ConcatTerminatedEnds(Kept(doc));
  }

  /** A newline at the end of a line does not change how `add_line` reads it. */
  lemma ParseLineNewline(s: string)
    ensures ParseLine(s + "\n") == ParseLine(s)
  {
    StripAppendSpace(s, '\n');
  }

  /** What the source reads back losslessly: records in canonical form rendered without newlines. */
  predicate Writable(doc: Doc) {
    forall i | 0 <= i < |doc| :: Canonical(doc[i]) && '\n' !in RenderItem(doc[i])
  }

  /**
   * Reading the serialized text of a document of canonical records gives the document
   * back, except that a final blank record is lost.
   */
  lemma ReadSerialize(doc: Doc)
    requires doc != [] && Writable(doc)
    ensures ReadText(Serialize(doc).value)
         == if RenderItem(doc[|doc| - 1]) == "" then doc[..|doc| - 1] else doc
  {
    var kept := Kept(doc);
    var target := if RenderItem(doc[|doc| - 1]) == "" then doc[..|doc| - 1] else doc;
    var text := Serialize(doc).value;
    assert text == Join(kept + [""], '\n') by {
      SerializeText(doc);
      JoinBlankLast(kept);
    }
    assert |kept| == |target| && forall i | 0 <= i < |kept| :: kept[i] == RenderItem(target[i]);
    assert FileLines(text) == Terminated(kept) by {
      assert forall i | 0 <= i < |kept| :: '\n' !in kept[i];
      FileLinesOfJoin(kept);
    }
    ReadRendered(kept, target);
  }

  /** Reading newline-terminated renderings of canonical records gives the records back. */
  lemma ReadRendered(lines: seq<string>, doc: Doc)
    requires |lines| == |doc|
    requires forall i | 0 <= i < |doc| :: lines[i] == RenderItem(doc[i]) && Canonical(doc[i])
    ensures Read(Terminated(lines)) == doc
  {
    TerminatedAt(lines);
    var back := Read(Terminated(lines));
    forall i | 0 <= i < |lines|
      ensures back[i] == doc[i]
    {
      assert back[i] == ParseLine(lines[i] + "\n");
      assert ParseLine(lines[i] + "\n") == ParseLine(lines[i]) by {
        ParseLineNewline(lines[i]);
      }
      assert ParseLine(lines[i]) == doc[i] by {
        RoundTrip(doc[i]);
      }
    }
  }

  /** A directive record is rendered and followed by the blank line `serialize` adds. */
  lemma ExampleTrailingBlankAdded()
    ensures Serialize([Conf("Foo", "bar", None)]) == Success("Foo bar\n")
  {
    var doc := [Conf("Foo", "bar", None)];
    assert RenderItem(doc[0]) == "Foo bar";
    assert RenderLines(doc) == ["Foo bar"];
    assert Kept(doc) == ["Foo bar"];
    SerializeText(doc);
    assert ["Foo bar"][1..] == [];
    assert ["Foo bar" + "\n"][1..] == [];
    assert Concat(Terminated(["Foo bar"])) == "Foo bar\n";
  }

  /** A document already ending in a blank record gets no second one. */
  lemma ExampleTrailingBlankKept()
    ensures Serialize([Conf("Foo", "bar", None), Other("")]) == Success("Foo bar\n")
  {
    var doc := [Conf("Foo", "bar", None), Other("")];
    assert RenderItem(doc[0]) == "Foo bar";
    assert RenderLines(doc) == ["Foo bar", ""];
    assert Kept(doc) == ["Foo bar"];
    SerializeText(doc);
    assert ["Foo bar"][1..] == [];
    assert ["Foo bar" + "\n"][1..] == [];
    assert Concat(Terminated(["Foo bar"])) == "Foo bar\n";
  }
}
