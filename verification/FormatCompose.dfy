/** Formats put one behind the other, as any strings. */
module FormatCompose {
  import opened Bytes
  import opened OutputGadget
  import opened IntegerText
  import opened FormatParse

  // ----- Parsing does not look beyond what it takes

  /** The same specification with more format behind it. */
  function Longer(p: Spec, tail: string): Spec
    requires p.Spec?
  {
    p.(rest := p.rest + tail)
  }

  lemma {:induction false} FlagsExtend(s: string, f: Flags, tail: string)
    requires ParseFlags(s, f).1 != ""
    ensures ParseFlags(s + tail, f) == (ParseFlags(s, f).0, ParseFlags(s, f).1 + tail)
  {
    assert s != "" && (s + tail)[0] == s[0];
    if IsFlag(s[0]) {
      FlagsExtend(s[1..], AddFlag(f, s[0]), tail);
      assert (s + tail)[1..] == s[1..] + tail;
    }
  }

  lemma {:induction false} ScanExtend(s: string, n: uint16, tail: string)
    requires ScanNumber(s, n).1 != ""
    ensures ScanNumber(s + tail, n) == (ScanNumber(s, n).0, ScanNumber(s, n).1 + tail)
  {
    assert s != "" && (s + tail)[0] == s[0];
    if IsDecimal(s[0]) {
      ScanExtend(s[1..], (n * 10 + (s[0] as int - '0' as int)) % 0x1_0000, tail);
      assert (s + tail)[1..] == s[1..] + tail;
    }
  }

  lemma WidthExtend(f: Flags, s: string, args: seq<Arg>, tail: string)
    requires ParseWidth(f, s, args).Spec? && ParseWidth(f, s, args).rest != ""
    ensures ParseWidth(f, s + tail, args) == Longer(ParseWidth(f, s, args), tail)
  {
    hide ScanNumber;
    assert s != "" && (s + tail)[0] == s[0] && (s + tail)[1..] == s[1..] + tail;
    if IsDecimal(s[0]) {
      ScanExtend(s, 0, tail);
    }
  }

  lemma PrecisionExtend(p: Spec, tail: string)
    requires p.Spec? && ParsePrecision(p).Spec? && ParsePrecision(p).rest != ""
    ensures ParsePrecision(Longer(p, tail)) == Longer(ParsePrecision(p), tail)
  {
    hide ScanNumber;
    var s := p.rest;
    assert s != "" && (s + tail)[0] == s[0] && (s + tail)[1..] == s[1..] + tail;
    if s[0] == '.' && s[1..] != "" {
      var r := s[1..];
      assert (r + tail)[0] == r[0] && (r + tail)[1..] == r[1..] + tail;
      if IsDecimal(r[0]) {
        ScanExtend(r, 0, tail);
      }
    }
  }

  lemma LengthExtend(p: Spec, tail: string)
    requires p.Spec? && ParseLength(p).Spec? && ParseLength(p).rest != ""
    ensures ParseLength(Longer(p, tail)) == Longer(ParseLength(p), tail)
  {
    var s := p.rest;
    assert s != "" && (s + tail)[0] == s[0] && (s + tail)[1..] == s[1..] + tail;
    if s[1..] != "" {
      var r := s[1..];
      assert (r + tail)[0] == r[0] && (r + tail)[1..] == r[1..] + tail;
    }
  }

  lemma SpecExtend(s: string, args: seq<Arg>, tail: string)
    requires ParseSpec(s, args).Spec? && ParseSpec(s, args).rest != ""
    ensures ParseSpec(s + tail, args) == Longer(ParseSpec(s, args), tail)
  {
    hide ParseFlags, ParseWidth, ParsePrecision, ParseLength;
    var (f, s1) := ParseFlags(s, NO_FLAGS);
    var p := ParseWidth(f, s1, args);
    var q := ParsePrecision(p);
    FlagsExtend(s, NO_FLAGS, tail);
    WidthExtend(f, s1, args, tail);
    PrecisionExtend(p, tail);
    LengthExtend(q, tail);
  }

  lemma ConvertExtend(p: Spec, tail: string)
    requires p.Spec? && p.rest != ""
    ensures Convert(Longer(p, tail)) == Convert(p) && Longer(p, tail).rest[1..] == p.rest[1..] + tail
  {
    hide IntegerPiece, StringPiece, InField;
    assert (p.rest + tail)[0] == p.rest[0];
    IntegerPieceSame(p.rest[0], p, Longer(p, tail));
  }

  /** The pieces look at everything but the rest of the format. */
  lemma IntegerPieceSame(c: char, p: Spec, q: Spec)
    requires p.Spec? && q.Spec? && q == p.(rest := q.rest)
    ensures p.args != [] && (if p.f.long32 then p.args[0].Long? else p.args[0].Word?) ==>
              IntegerPiece(c, q) == IntegerPiece(c, p)
    ensures p.args != [] && (p.args[0].Str? || p.args[0].Null?) ==> StringPiece(q) == StringPiece(p)
  {
    hide CodeInteger, InField;
  }

  // ----- Formats that end outside a specification

  /** The format is at its end after some conversion or ordinary character, never inside a conversion
      specification. */
  predicate EndsClean(s: string, args: seq<Arg>)
    decreases |s|
  {
    if s == "" then true
    else if s[0] != '%' then EndsClean(s[1..], args)
    else if |s| == 1 then false
    else
      var p := ParseSpec(s[1..], args);
      p.Spec? && p.rest != "" && Convert(p).Piece? && EndsClean(p.rest[1..], Convert(p).args)
  }

  /** The arguments it leaves. */
  function ArgsLeft(s: string, args: seq<Arg>): seq<Arg>
    requires EndsClean(s, args)
    decreases |s|
  {
    if s == "" then args
    else if s[0] != '%' then ArgsLeft(s[1..], args)
    else
      var p := ParseSpec(s[1..], args);
      ArgsLeft(p.rest[1..], Convert(p).args)
  }

  /** Formatting is compositional: a format that does not end inside a specification, followed by any
      other, prints its own text and then what the other prints on the arguments that remain. */
  lemma {:induction false} RenderComposes(s: string, tail: string, args: seq<Arg>)
    requires EndsClean(s, args)
    ensures Render(s, args).Output?
    ensures Render(s + tail, args) == Prepend(Render(s, args).text, Render(tail, ArgsLeft(s, args)))
    decreases |s|
  {
    hide ParseSpec, Convert;
    if s == "" {
      assert s + tail == tail;
      PrependNothing(Render(tail, args));
    } else if s[0] != '%' {
      RenderComposes(s[1..], tail, args);
      assert (s + tail)[0] == s[0] && (s + tail)[1..] == s[1..] + tail;
      PrependTwice([s[0]], Render(s[1..], args).text, Render(tail, ArgsLeft(s, args)));
    } else {
      var p := ParseSpec(s[1..], args);
      SpecExtend(s[1..], args, tail);
      ConvertExtend(p, tail);
      assert (s + tail)[0] == s[0] && (s + tail)[1..] == s[1..] + tail;
      RenderComposes(p.rest[1..], tail, Convert(p).args);
      PrependTwice(Convert(p).text, Render(p.rest[1..], Convert(p).args).text, Render(tail, ArgsLeft(s, args)));
    }
  }

  // ----- And only those compose

  ghost predicate ComposesWith(s: string, args: seq<Arg>, left: seq<Arg>)
    requires Render(s, args).Output?
  {
    forall tail :: Render(s + tail, args) == Prepend(Render(s, args).text, Render(tail, left))
  }

  /** A format whose output is defined can be followed by any other exactly when it does not end inside
      a specification: there the code stops short, and a `%` put behind it comes out. */
  lemma ComposesIff(s: string, args: seq<Arg>)
    requires Render(s, args).Output?
    ensures (exists left :: ComposesWith(s, args, left)) <==> EndsClean(s, args)
  {
    if EndsClean(s, args) {
      forall tail
        ensures Render(s + tail, args) == Prepend(Render(s, args).text, Render(tail, ArgsLeft(s, args)))
      {
        RenderComposes(s, tail, args);
      }
      assert ComposesWith(s, args, ArgsLeft(s, args));
    } else {
      PercentComesOut(s, args);
      forall left
        ensures !ComposesWith(s, args, left)
      {
        PercentAlone(left);
        var u := Render(s, args).text;
        assert Render(s + "%", args).text != Prepend(u, Render("%", left)).text;
      }
    }
  }

  lemma PercentAlone(args: seq<Arg>)
    ensures Render("%", args) == Output("")
  {
  }

  /** A specification cut short by the end of the format is mended by a `%`. */
  lemma CutIsMended(s: string, args: seq<Arg>)
    requires ParseSpec(s, args).Cut?
    ensures var q := ParseSpec(s + "%", args);
            q.Spec? && q.rest == "%" && Convert(q).Piece? && Convert(q).text == "%"
  {
    hide ParseFlags, ParseWidth, ParsePrecision, ParseLength;
    var (f, s1) := ParseFlags(s, NO_FLAGS);
    var p := ParseWidth(f, s1, args);
    if s1 == "" {
      NothingLeft(f, args);
    } else {
      FlagsExtend(s, NO_FLAGS, "%");
      if p.Cut? {
        WidthMended(f, s1, args);
      } else {
        var q := ParsePrecision(p);
        if p.rest == "" {
          NothingFollows(p);
        } else {
          WidthExtend(f, s1, args, "%");
          if q.Cut? {
            PrecisionMended(p);
          } else if q.rest == "" {
            NothingFollows(q);
          } else {
            PrecisionExtend(p, "%");
            LengthMended(q);
          }
        }
      }
    }
  }

  lemma NothingLeft(f: Flags, args: seq<Arg>)
    ensures ParseWidth(f, "", args) == Spec(f, 0, 0, "", args)
    ensures ParsePrecision(Spec(f, 0, 0, "", args)) == ParseLength(Spec(f, 0, 0, "", args)) == Spec(f, 0, 0, "", args)
  {
  }

  lemma NothingFollows(p: Spec)
    requires p.Spec? && p.rest == ""
    ensures ParsePrecision(p) == ParseLength(p) == p
  {
  }

  /** A `%` ends every part of a specification. */
  lemma PercentFollows(p: Spec)
    requires p.Spec? && p.rest == "%"
    ensures ParsePrecision(p) == ParseLength(p) == p && Convert(p).Piece? && Convert(p).text == "%"
  {
  }

  lemma WidthMended(f: Flags, s: string, args: seq<Arg>)
    requires ParseWidth(f, s, args).Cut?
    ensures var p := ParseWidth(f, s + "%", args);
            p.Spec? && p.rest == "%" && ParsePrecision(p) == ParseLength(p) == p
            && Convert(p).Piece? && Convert(p).text == "%"
  {
    assert (s + "%")[0] == '*' && (s + "%")[1..] == "%";
    PercentFollows(ParseWidth(f, s + "%", args));
  }

  lemma PrecisionMended(p: Spec)
    requires p.Spec? && ParsePrecision(p).Cut?
    ensures var q := ParsePrecision(Longer(p, "%"));
            q.Spec? && q.rest == "%" && ParseLength(q) == q && Convert(q).Piece? && Convert(q).text == "%"
  {
    var s := p.rest;
    assert (s + "%")[0] == s[0] && (s + "%")[1..] == s[1..] + "%";
    if s[1..] != "" {
      assert s[1..][0] == '*' && (s[1..] + "%")[1..] == "%";
    }
    PercentFollows(ParsePrecision(Longer(p, "%")));
  }

  lemma LengthMended(p: Spec)
    requires p.Spec? && ParseLength(p).Cut?
    ensures var q := ParseLength(Longer(p, "%"));
            q.Spec? && q.rest == "%" && Convert(q).Piece? && Convert(q).text == "%"
  {
    var s := p.rest;
    assert (s + "%")[0] == s[0] && (s + "%")[1..] == s[1..] + "%";
    if s[1..] != "" {
      assert (s[1..] + "%")[1..] == "%";
    }
    PercentFollows(ParseLength(Longer(p, "%")));
  }

  lemma {:induction false} PercentComesOut(s: string, args: seq<Arg>)
    requires Render(s, args).Output? && !EndsClean(s, args)
    ensures Render(s + "%", args) == Output(Render(s, args).text + "%")
    decreases |s|
  {
    hide ParseSpec, Convert;
    assert (s + "%")[0] == s[0] && (s + "%")[1..] == s[1..] + "%";
    if s[0] != '%' {
      PercentComesOut(s[1..], args);
      assert [s[0]] + (Render(s[1..], args).text + "%") == [s[0]] + Render(s[1..], args).text + "%";
    } else if |s| == 1 {
      DoublePercent(args);
      assert s + "%" == "%%";
    } else {
      var p := ParseSpec(s[1..], args);
      if p.Cut? {
        CutIsMended(s[1..], args);
        assert "%"[1..] == "";
      } else {
        LetterThere(p);
        SpecExtend(s[1..], args, "%");
        ConvertExtend(p, "%");
        PercentComesOut(p.rest[1..], Convert(p).args);
        var t, u := Convert(p).text, Render(p.rest[1..], Convert(p).args).text;
        assert t + (u + "%") == t + u + "%";
      }
    }
  }

  lemma LetterThere(p: Spec)
    requires p.Spec? && Convert(p).Piece?
    ensures p.rest != ""
  {
  }

  lemma DoublePercent(args: seq<Arg>)
    ensures Render("%%", args) == Output("%")
  {
    var p := Spec(NO_FLAGS, 0, 0, "%", args);
    assert "%%"[1..] == "%" && "%"[1..] == "";
    PercentFollows(p);
    assert ParseSpec("%", args) == p;
    assert Convert(p) == Piece("%", args);
  }
}
