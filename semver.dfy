/**
 * `semver.Parse`: splits a version string into its major, minor and patch
 * tokens and its label.  The tokens are not validated: they stay strings
 * and may be empty.
 */
module Semver {
  import opened Wrappers
  import opened Strings

  datatype SemanticVersion = SemanticVersion(major: string, minor: string, patch: string, labelText: string)

  /** The zero value `SemanticVersion{}` returned alongside an error. */
  const Zero := SemanticVersion("", "", "", "")

  /** `invalid version format: <version>`, where <version> is the part before the label. */
  datatype ParseError = InvalidVersionFormat(version: string)

  /** Go's `(semver SemanticVersion, err error)` pair. */
  datatype Parsed = Parsed(semver: SemanticVersion, err: Option<ParseError>)

  /** One leading `v` removed, at most. */
  function StripTag(version: string): string
  {
    TrimPrefix(version, "v")
  }

  /** Cut on the first `-`; only when there is none, cut on the first `+`. */
  function SplitLabel(v: string): CutResult
  {
    var dash := Cut(v, '-');
    if dash.found then dash else Cut(v, '+')
  }

  function Parse(version: string): (r: Parsed)
    ensures r.err.Some? ==> r.semver == Zero
  {
    var cut := SplitLabel(StripTag(version));
    var tokens := Split(cut.before, '.');
    if |tokens| != 3 then Parsed(Zero, Some(InvalidVersionFormat(cut.before)))
    else Parsed(SemanticVersion(tokens[0], tokens[1], tokens[2], cut.after), None)
  }

  /** The three numeric-ish tokens joined back with dots. */
  function Core(sv: SemanticVersion): string
  {
    sv.major + "." + sv.minor + "." + sv.patch
  }

  /**
   * Parse fails exactly when the part before the label does not hold
   * exactly two dots, and then reports that part.
   */
  lemma ParseFailsIff(version: string)
    ensures var before := SplitLabel(StripTag(version)).before;
      && (Parse(version).err.Some? <==> Count(before, '.') != 2)
      && (Parse(version).err.Some? ==> Parse(version).err.value == InvalidVersionFormat(before))
  {
    SplitLength(SplitLabel(StripTag(version)).before, '.');
  }

  /**
   * On success the (tag-stripped) input is the three dot-free tokens joined
   * by dots, followed by `-label` when the input has a `-`, otherwise by
   * `+label` when it has a `+`, otherwise by nothing.
   */
  lemma ParseSuccessShape(version: string)
    requires Parse(version).err.None?
    ensures var sv := Parse(version).semver;
      var v := StripTag(version);
      && '.' !in sv.major && '.' !in sv.minor && '.' !in sv.patch
      && ('-' in v ==> v == Core(sv) + "-" + sv.labelText && '-' !in Core(sv))
      && ('-' !in v && '+' in v ==> v == Core(sv) + "+" + sv.labelText && '+' !in Core(sv))
      && ('-' !in v && '+' !in v ==> v == Core(sv) && sv.labelText == "")
  {
    SplitLabelShape(StripTag(version));
    ParseSuccessCore(version);
  }

  /** On success the part before the label is the core of the result. */
  lemma ParseSuccessCore(version: string)
    requires Parse(version).err.None?
    ensures var sv := Parse(version).semver;
      && SplitLabel(StripTag(version)) == CutResult(Core(sv), sv.labelText, SplitLabel(StripTag(version)).found)
      && '.' !in sv.major && '.' !in sv.minor && '.' !in sv.patch
  {
    var sv := Parse(version).semver;
    var cut := SplitLabel(StripTag(version));
    var tokens := Split(cut.before, '.');
    assert |tokens| == 3 && sv == SemanticVersion(tokens[0], tokens[1], tokens[2], cut.after);
    JoinSplit(cut.before, '.');
    JoinOfThree(tokens);
  }

  lemma JoinOfThree(tokens: seq<string>)
    requires |tokens| == 3
    ensures Join(tokens, '.') == tokens[0] + "." + tokens[1] + "." + tokens[2]
  {
    assert tokens == [tokens[0], tokens[1], tokens[2]];
    JoinThree(tokens[0], tokens[1], tokens[2]);
  }

  /** What `SplitLabel` cut, by which separators the input holds. */
  lemma SplitLabelShape(v: string)
    ensures var cut := SplitLabel(v);
      && ('-' in v ==> v == cut.before + "-" + cut.after && '-' !in cut.before)
      && ('-' !in v && '+' in v ==> v == cut.before + "+" + cut.after && '+' !in cut.before)
      && ('-' !in v && '+' !in v ==> v == cut.before && cut.after == "")
  {
  }

  lemma JoinThree(a: string, b: string, c: string)
    ensures Join([a, b, c], '.') == a + "." + b + "." + c
  {
    assert [a, b, c][1..] == [b, c] && [b, c][1..] == [c];
    assert Join([c], '.') == c;
    assert Join([b, c], '.') == b + "." + c;
  }

  /** Every `-x` suffix is a label: `v` + a.b.c + `-` + l parses back to its parts. */
  lemma ParseRoundTrip(a: string, b: string, c: string, l: string)
    requires '.' !in a && '.' !in b && '.' !in c
    requires '-' !in a && '-' !in b && '-' !in c
    ensures Parse("v" + a + "." + b + "." + c + "-" + l) == Parsed(SemanticVersion(a, b, c, l), None)
  {
    var s := "v" + a + "." + b + "." + c + "-" + l;
    assert s == "v" + (a + "." + b + "." + c + "-" + l);
    StripOneTag(a + "." + b + "." + c + "-" + l);
    ParseDashLabel(s, a, b, c, l);
  }

  /** Without a `-`, a `+` suffix is the label. */
  lemma ParseRoundTripPlus(a: string, b: string, c: string, l: string)
    requires '.' !in a && '.' !in b && '.' !in c
    requires '-' !in a && '-' !in b && '-' !in c && '-' !in l
    requires '+' !in a && '+' !in b && '+' !in c
    ensures Parse("v" + a + "." + b + "." + c + "+" + l) == Parsed(SemanticVersion(a, b, c, l), None)
  {
    var s := "v" + a + "." + b + "." + c + "+" + l;
    assert s == "v" + (a + "." + b + "." + c + "+" + l);
    StripOneTag(a + "." + b + "." + c + "+" + l);
    ParsePlusLabel(s, a, b, c, l);
  }

  /** With neither `-` nor `+`, the label is empty. */
  lemma ParseRoundTripBare(a: string, b: string, c: string)
    requires '.' !in a && '.' !in b && '.' !in c
    requires '-' !in a && '-' !in b && '-' !in c
    requires '+' !in a && '+' !in b && '+' !in c
    ensures Parse("v" + a + "." + b + "." + c) == Parsed(SemanticVersion(a, b, c, ""), None)
  {
    var s := "v" + a + "." + b + "." + c;
    assert s == "v" + (a + "." + b + "." + c);
    StripOneTag(a + "." + b + "." + c);
    ParseNoLabel(s, a, b, c);
  }

  lemma ParseDashLabel(version: string, a: string, b: string, c: string, l: string)
    requires StripTag(version) == a + "." + b + "." + c + "-" + l
    requires '.' !in a && '.' !in b && '.' !in c
    requires '-' !in a && '-' !in b && '-' !in c
    ensures Parse(version) == Parsed(SemanticVersion(a, b, c, l), None)
  {
    var core := a + "." + b + "." + c;
    var v := core + "-" + l;
    assert SplitLabel(v) == CutResult(core, l, true) by {
      NotInCore(a, b, c, '-');
      CutAt(core, '-', l);
    }
    SplitCore(a, b, c);
    ParseFrom(version, v, core, l, a, b, c);
  }

  lemma ParsePlusLabel(version: string, a: string, b: string, c: string, l: string)
    requires StripTag(version) == a + "." + b + "." + c + "+" + l
    requires '.' !in a && '.' !in b && '.' !in c
    requires '-' !in a && '-' !in b && '-' !in c && '-' !in l
    requires '+' !in a && '+' !in b && '+' !in c
    ensures Parse(version) == Parsed(SemanticVersion(a, b, c, l), None)
  {
    var core := a + "." + b + "." + c;
    NotInCore(a, b, c, '-');
    NotInCore(a, b, c, '+');
    SplitLabelPlus(core, l);
    SplitCore(a, b, c);
    ParseFrom(version, core + "+" + l, core, l, a, b, c);
  }

  lemma SplitLabelPlus(core: string, l: string)
    requires '-' !in core && '+' !in core && '-' !in l
    ensures SplitLabel(core + "+" + l) == CutResult(core, l, true)
  {
    NotInConcat(core, "+", '-');
    NotInConcat(core + "+", l, '-');
    CutAbsent(core + "+" + l, '-');
    CutAt(core, '+', l);
  }

  lemma ParseNoLabel(version: string, a: string, b: string, c: string)
    requires StripTag(version) == a + "." + b + "." + c
    requires '.' !in a && '.' !in b && '.' !in c
    requires '-' !in a && '-' !in b && '-' !in c
    requires '+' !in a && '+' !in b && '+' !in c
    ensures Parse(version) == Parsed(SemanticVersion(a, b, c, ""), None)
  {
    var core := a + "." + b + "." + c;
    assert SplitLabel(core) == CutResult(core, "", false) by {
      NotInCore(a, b, c, '-');
      NotInCore(a, b, c, '+');
      CutAbsent(core, '-');
      CutAbsent(core, '+');
    }
    SplitCore(a, b, c);
    ParseFrom(version, core, core, "", a, b, c);
  }

  lemma NotInCore(a: string, b: string, c: string, x: char)
    requires x != '.' && x !in a && x !in b && x !in c
    ensures x !in a + "." + b + "." + c
  {
    NotInConcat(a, ".", x);
    NotInConcat(a + ".", b, x);
    NotInConcat(a + "." + b, ".", x);
    NotInConcat(a + "." + b + ".", c, x);
  }

  /** Unfolds `Parse` once its three stages are known. */
  lemma ParseFrom(version: string, v: string, core: string, l: string, a: string, b: string, c: string)
    requires StripTag(version) == v && SplitLabel(v).before == core && SplitLabel(v).after == l
    requires Split(core, '.') == [a, b, c]
    ensures Parse(version) == Parsed(SemanticVersion(a, b, c, l), None)
  {
  }

  lemma StripOneTag(rest: string)
    ensures StripTag("v" + rest) == rest
  {
    assert ("v" + rest)[..1] == "v";
  }

  lemma SplitCore(a: string, b: string, c: string)
    requires '.' !in a && '.' !in b && '.' !in c
    ensures Split(a + "." + b + "." + c, '.') == [a, b, c]
  {
    JoinThree(a, b, c);
    SplitJoin([a, b, c], '.');
  }

  lemma ParseExampleBare()
    ensures Parse("v1.2.3") == Parsed(SemanticVersion("1", "2", "3", ""), None)
  {
    assert StripTag("v1.2.3") == "1" + "." + "2" + "." + "3" by {
      assert "v1.2.3"[..1] == "v";
    }
    ParseNoLabel("v1.2.3", "1", "2", "3");
  }

  lemma ParseExampleDash()
    ensures Parse("v1.2.3-beta.1") == Parsed(SemanticVersion("1", "2", "3", "beta.1"), None)
  {
    assert StripTag("v1.2.3-beta.1") == "1" + "." + "2" + "." + "3" + "-" + "beta.1" by {
      assert "v1.2.3-beta.1"[..1] == "v";
    }
    ParseDashLabel("v1.2.3-beta.1", "1", "2", "3", "beta.1");
  }

  lemma ParseExamplePlus()
    ensures Parse("v2.0.0+meta") == Parsed(SemanticVersion("2", "0", "0", "meta"), None)
  {
    assert StripTag("v2.0.0+meta") == "2" + "." + "0" + "." + "0" + "+" + "meta" by {
      assert "v2.0.0+meta"[..1] == "v";
    }
    ParsePlusLabel("v2.0.0+meta", "2", "0", "0", "meta");
  }

  /** Only one leading `v` is removed: the second one stays in the major token. */
  lemma ParseKeepsSecondTag()
    ensures Parse("vv1.2.3") == Parsed(SemanticVersion("v1", "2", "3", ""), None)
  {
    assert StripTag("vv1.2.3") == "v1" + "." + "2" + "." + "3" by {
      assert "vv1.2.3"[..1] == "v";
    }
    ParseNoLabel("vv1.2.3", "v1", "2", "3");
  }

  /** Two tokens are an invalid version format; the zero value comes back. */
  lemma ParseRejectsTwoTokens()
    ensures Parse("1.2") == Parsed(Zero, Some(InvalidVersionFormat("1.2")))
  {
    assert StripTag("1.2") == "1.2" by {
      assert "1.2"[0] == '1';
    }
    assert SplitLabel("1.2") == CutResult("1.2", "", false) by {
      CutAbsent("1.2", '-');
      CutAbsent("1.2", '+');
    }
    ParseFailsIff("1.2");
    assert Count("1.2", '.') == 1 by {
      assert "1.2" == "1" + ['.'] + "2";
      CountAppend("1" + ['.'], "2", '.');
      CountAppend("1", ['.'], '.');
    }
  }

  /** `-` is tried before `+`: in `1.2.3+m-x` the label is `x` and the patch is `3+m`. */
  lemma ParseCutsDashFirst()
    ensures Parse("1.2.3+m-x") == Parsed(SemanticVersion("1", "2", "3+m", "x"), None)
  {
    assert StripTag("1.2.3+m-x") == "1" + "." + "2" + "." + "3+m" + "-" + "x" by {
      assert "1.2.3+m-x"[0] == '1';
    }
    ParseDashLabel("1.2.3+m-x", "1", "2", "3+m", "x");
  }
}
