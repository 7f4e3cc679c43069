/**
 * One line of a `freshclam.conf`-style file: the record `add_line` turns it into, and
 * the line `serialize` renders the record back as.
 */
module Line {
  import opened Base
  import opened Text

  /**
   * A parsed line. `Other` is the source's `LINE_OTHER` record: comments, blank lines
   * and single-token lines, kept as their stripped text. `Conf` is `LINE_CONF`: a
   * directive name (`left`), its value (`right`) and an optional inline comment.
   */
  datatype Item = Other(text: string) | Conf(name: string, value: string, comment: Option<string>)

  predicate StartsWithHash(s: string) {
    |s| > 0 && s[0] == '#'
  }

  /** What a directive name parsed from a line always is: non-empty, without whitespace, not a comment. */
  predicate IsName(n: string) {
    n != [] && !StartsWithHash(n) && NoSpace(n)
  }

  /** What a directive value parsed from a line always is: trimmed and free of `#`. */
  predicate IsValue(v: string) {
    IsStripped(v) && '#' !in v
  }

  /**
   * `add_line`: strip the line; a comment or a line without whitespace stays as its
   * stripped text; otherwise the first whitespace run separates the name from the
   * remainder, whose first `#` (if any) starts an inline comment.
   */
  function ParseLine(line: string): (it: Item)
    ensures it.Other? <==> StartsWithHash(Strip(line)) || NoSpace(Strip(line))
    ensures it.Other? ==> it.text == Strip(line)
    ensures it.Conf? ==> IsName(it.name) && IsValue(it.value)
    ensures it.Conf? && it.comment.None? ==> it.value != []
    ensures it.Conf? && it.comment.Some? ==> IsStripped(it.comment.value)
    ensures Canonical(it) || (it.Conf? && it.comment == Some([]))
  {
    var t := Strip(line);
    if StartsWithHash(t) then Other(t)
    else
      match SplitAtSpaceRun(t)
      case None => Other(t)
      case Some((name, sep, rest)) =>
        SplitAtSpaceRunStripped(t);
        assert name[0] == t[0];
        assert rest[|rest| - 1] == t[|t| - 1];
        ParseRemainder(name, rest)
  }

  /** The directive part of `add_line`: the remainder after the name, split at its first `#`. */
  function ParseRemainder(name: string, rest: string): (it: Item)
    requires IsName(name) && rest != [] && IsStripped(rest)
    ensures it.Conf? && it.name == name && IsValue(it.value)
    ensures it.comment.None? ==> it.value == rest
    ensures it.comment.Some? ==> IsStripped(it.comment.value) && '#' in rest
    ensures '#' in rest ==>
              var (before, after) := SplitAtChar(rest, '#').value;
              it.value == Strip(before) && it.comment == Some(Strip(after))
    ensures Canonical(it) || it.comment == Some([])
  {
    match SplitAtChar(rest, '#')
    case None => Conf(name, rest, None)
    case Some((before, after)) =>
      StripKeepsOut(before, '#');
      Conf(name, Strip(before), Some(Strip(after)))
  }

  /**
   * A stripped line `name sep rest`, where `rest` holds no `#`, is a directive without
   * comment whose value is `rest`.
   */
  lemma ParseDirective(line: string, name: string, sep: string, rest: string)
    requires Strip(line) == name + sep + rest
    requires IsName(name) && sep != [] && AllSpace(sep)
    requires rest != [] && !IsSpace(rest[0]) && '#' !in rest
    ensures ParseLine(line) == Conf(name, rest, None)
  {
    var t := Strip(line);
    assert !StartsWithHash(t) by { assert t[0] == name[0]; }
    assert SplitAtSpaceRun(t) == Some((name, sep, rest)) by {
      SplitAtSpaceRunOf(name, sep, rest);
    }
    assert SplitAtChar(rest, '#') == None;
  }

  /**
   * A stripped line `name sep rest` with `rest` = `before # after`, where `before`
   * holds no `#`, is a directive whose value is `before` trimmed and whose comment is
   * `after` trimmed.
   */
  lemma ParseDirectiveWithComment(line: string, name: string, sep: string, rest: string, before: string, after: string)
    requires Strip(line) == name + sep + rest && rest == before + "#" + after
    requires IsName(name) && sep != [] && AllSpace(sep)
    requires (before == [] || !IsSpace(before[0])) && '#' !in before
    ensures ParseLine(line) == Conf(name, Strip(before), Some(Strip(after)))
  {
    var t := Strip(line);
    assert !StartsWithHash(t) by { assert t[0] == name[0]; }
    assert SplitAtSpaceRun(t) == Some((name, sep, rest)) by {
      assert rest[0] == if before == [] then '#' else before[0];
      SplitAtSpaceRunOf(name, sep, rest);
    }
    assert SplitAtChar(rest, '#') == Some((before, after)) by {
      SplitAtCharOf(before, '#', after);
    }
  }

  /** `serialize` for one record: `name value`, then `  # comment` when the comment is non-empty. */
  function RenderItem(it: Item): string {
    match it
    case Other(text) => text
    case Conf(name, value, comment) =>
      name + " " + value + (if comment.Some? && comment.value != [] then "  # " + comment.value else [])
  }

  /** The records that come back unchanged from rendering and re-parsing. */
  predicate Canonical(it: Item) {
    match it
    case Other(text) => IsStripped(text) && (StartsWithHash(text) || NoSpace(text))
    case Conf(name, value, comment) =>
      && IsName(name)
      && IsValue(value)
      && match comment
         case None => value != []
         case Some(c) => c != [] && IsStripped(c)
  }

  /** A canonical directive without comment renders as `name value` and parses back. */
  lemma RoundTripPlain(name: string, value: string)
    requires IsName(name) && IsValue(value) && value != []
    ensures ParseLine(name + " " + value) == Conf(name, value, None)
  {
    var line := name + " " + value;
    assert IsStripped(line) by {
      assert line[0] == name[0];
      assert line[|line| - 1] == value[|value| - 1];
    }
    StripStripped(line);
    ParseDirective(line, name, " ", value);
  }

  /**
   * `name sep before#after`, for a non-empty `after` that ends in a non-space, is
   * already stripped.
   */
  lemma CommentedLineStripped(name: string, sep: string, before: string, after: string)
    requires IsName(name) && after != [] && !IsSpace(after[|after| - 1])
    ensures Strip(name + sep + (before + "#" + after)) == name + sep + (before + "#" + after)
  {
    var line := name + sep + (before + "#" + after);
    assert line[0] == name[0];
    assert line[|line| - 1] == after[|after| - 1];
    StripStripped(line);
  }

  /** `name value<pad># c`, for a non-empty value and any whitespace `pad`, parses back into its three parts. */
  lemma ParseCommented(name: string, value: string, pad: string, c: string)
    requires IsName(name) && IsValue(value) && value != [] && c != [] && IsStripped(c)
    requires AllSpace(pad)
    ensures ParseLine(name + " " + ((value + pad) + "#" + (" " + c))) == Conf(name, value, Some(c))
  {
    var before := value + pad;
    var after := " " + c;
    var rest := before + "#" + after;
    var line := name + " " + rest;
    assert Strip(line) == line by {
      assert after[|after| - 1] == c[|c| - 1];
      CommentedLineStripped(name, " ", before, after);
    }
    assert Strip(after) == c by { StripLeft(" ", c); }
    assert Strip(before) == value by { StripRight(value, pad); }
    assert before[0] == value[0];
    ParseDirectiveWithComment(line, name, " ", rest, before, after);
  }

  /** `name<sep># c`, a directive with empty value, parses back into a name and comment `c`. */
  lemma ParseCommentedEmptyValue(name: string, sep: string, c: string)
    requires IsName(name) && c != [] && IsStripped(c) && sep != [] && AllSpace(sep)
    ensures ParseLine(name + sep + ([] + "#" + (" " + c))) == Conf(name, [], Some(c))
  {
    var after := " " + c;
    var rest := [] + "#" + after;
    var line := name + sep + rest;
    assert Strip(line) == line by {
      assert after[|after| - 1] == c[|c| - 1];
      CommentedLineStripped(name, sep, [], after);
    }
    assert Strip(after) == c by { StripLeft(" ", c); }
    assert Strip([]) == [] by { StripStripped([]); }
    ParseDirectiveWithComment(line, name, sep, rest, [], after);
  }

  /** How a directive with a non-empty comment is laid out by `RenderItem`. */
  lemma RenderCommentedShape(name: string, value: string, c: string)
    requires c != []
    ensures value != [] ==> RenderItem(Conf(name, value, Some(c))) == name + " " + ((value + "  ") + "#" + (" " + c))
    ensures value == [] ==> RenderItem(Conf(name, value, Some(c))) == name + "   " + ([] + "#" + (" " + c))
  {
    assert "  # " == "  " + "#" + " ";
    assert " " + [] + "  " == "   ";
  }

  /** A canonical directive with a comment renders as `name value  # comment` and parses back. */
  lemma RoundTripCommented(name: string, value: string, c: string)
    requires IsName(name) && IsValue(value) && c != [] && IsStripped(c)
    ensures ParseLine(RenderItem(Conf(name, value, Some(c)))) == Conf(name, value, Some(c))
  {
    RenderCommentedShape(name, value, c);
    if value == [] {
      ParseCommentedEmptyValue(name, "   ", c);
    } else {
      ParseCommented(name, value, "  ", c);
    }
  }

  /** A name followed by whitespace alone is a plain line holding the name. */
  lemma ParseNameAlone(name: string, pad: string)
    requires IsName(name) && AllSpace(pad)
    ensures ParseLine(name + pad) == Other(name)
  {
    assert IsStripped(name) by { assert !IsSpace(name[|name| - 1]); }
    StripRight(name, pad);
  }

  /**
   * `name #` (for instance `Foo #`) is a directive with empty value and empty comment;
   * it renders as `name ` (see `RoundTripLosesEmptyComment`), which re-parses as the
   * plain line `name`.
   */
  lemma ParseEmptyValueAndComment(name: string)
    requires IsName(name)
    ensures ParseLine(name + " #") == Conf(name, [], Some([]))
  {
    var rest := [] + "#" + [];
    var line := name + " #";
    assert line == name + " " + rest;
    assert IsStripped(line) by { assert line[0] == name[0] && line[|line| - 1] == '#'; }
    StripStripped(line);
    StripStripped([]);
    ParseDirectiveWithComment(line, name, " ", rest, [], []);
  }

  /** A directive whose comment is empty renders as if it had none, so the empty comment is lost. */
  lemma RoundTripLosesEmptyComment(name: string, value: string)
    requires IsName(name) && IsValue(value)
    ensures ParseLine(RenderItem(Conf(name, value, Some([])))) != Conf(name, value, Some([]))
  {
    var line := RenderItem(Conf(name, value, Some([])));
    assert line == name + " " + value;
    if value != [] {
      RoundTripPlain(name, value);
    } else {
      ParseNameAlone(name, " ");
    }
  }

  /** A canonical record comes back from rendering and re-parsing. */
  lemma RoundTripCanonical(it: Item)
    requires Canonical(it)
    ensures ParseLine(RenderItem(it)) == it
  {
    match it
    case Other(text) =>
      StripStripped(text);
    case Conf(name, value, comment) =>
      match comment
      case None =>
        assert RenderItem(it) == name + " " + value;
        RoundTripPlain(name, value);
      case Some(c) => RoundTripCommented(name, value, c);
  }

  /** Re-parsing a rendered record gives the record back exactly when it is canonical. */
  lemma RoundTrip(it: Item)
    ensures ParseLine(RenderItem(it)) == it <==> Canonical(it)
  {
    if Canonical(it) {
      RoundTripCanonical(it);
    } else if it.Conf? && it.comment == Some([]) && IsName(it.name) && IsValue(it.value) {
      RoundTripLosesEmptyComment(it.name, it.value);
    } else {
      var p := ParseLine(RenderItem(it));
      assert Canonical(p) || (p.Conf? && IsName(p.name) && IsValue(p.value) && p.comment == Some([]));
    }
  }

  /** `Foo bar # baz` is the directive `Foo` with value `bar` and comment `baz`. */
  lemma ExampleDirectiveWithComment(line: string)
    requires line == "Foo bar # baz"
    ensures ParseLine(line) == Conf("Foo", "bar", Some("baz"))
  {
    assert line == "Foo" + " " + (("bar" + " ") + "#" + (" " + "baz"));
    ParseCommented("Foo", "bar", " ", "baz");
  }

  /** The directive `Foo` with value `bar` and comment `baz` renders as `Foo bar  # baz`. */
  lemma ExampleRenderWithComment()
    ensures RenderItem(Conf("Foo", "bar", Some("baz"))) == "Foo bar  # baz"
  {
    assert RenderItem(Conf("Foo", "bar", Some("baz"))) == "Foo" + " " + "bar" + "  # " + "baz";
  }

  /** The one kind of parsed record that is not canonical renders like its comment-free twin. */
  lemma RenderParseEmptyComment(name: string, value: string)
    requires IsName(name) && IsValue(value)
    ensures RenderItem(ParseLine(RenderItem(Conf(name, value, Some([]))))) == RenderItem(Conf(name, value, Some([])))
            <==> value != []
  {
    var line := RenderItem(Conf(name, value, Some([])));
    assert line == name + " " + value;
    if value != [] {
      RoundTripPlain(name, value);
    } else {
      assert ParseLine(line) == Other(name) by {
        assert line == name + " ";
        ParseNameAlone(name, " ");
      }
      assert |RenderItem(Other(name))| < |line|;
    }
  }

  /**
   * Rendering what was parsed is stable under a second parse and render, except for a
   * directive with an empty value and an empty comment, whose trailing space is lost.
   */
  lemma RenderParseStable(line: string)
    ensures var it := ParseLine(line);
            RenderItem(ParseLine(RenderItem(it))) == RenderItem(it)
            <==> !(it.Conf? && it.value == [] && it.comment == Some([]))
  {
    var it := ParseLine(line);
    if Canonical(it) {
      RoundTripCanonical(it);
    } else {
      RenderParseEmptyComment(it.name, it.value);
    }
  }
}
