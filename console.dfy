/** The checks `ConsoleBase` in `cereja/display.py` makes on the text it
    writes: replacing characters outside the Basic Multilingual Plane, the
    `text_color` setter and `format`'s colour-name validation. */
module Console {
  import opened Errors
  import opened Text

  const Escape: char := '\U{1B}'

  /** The ANSI colour codes of the class attributes `CL_*`. */
  function Code(n: string): string {
    [Escape] + "[" + n + "m"
  }

  /** The colour map every console starts from: eight named colours and
      `default`, which is white. */
  function BaseColorMap(): (m: map<string, string>)
    ensures "default" in m && m["default"] == Code("37")
  {
    map[
      "black" := Code("30"),
      "red" := Code("31"),
      "green" := Code("32"),
      "yellow" := Code("33"),
      "blue" := Code("34"),
      "magenta" := Code("35"),
      "cyan" := Code("36"),
      "white" := Code("37"),
      "default" := Code("37")
    ]
  }

  const Replacement: char := '\U{FFFD}'

  predicate IsBmp(c: char) {
    (c as int) < 0x10000
  }

  /** The characters `strip('CL_')` removes: any of C, L and underscore. */
  const ColorPrefixChars: set<char> := {'C', 'L', '_'}

  /** The colour name the `text_color` setter looks up: a name written in
      any case with a `CL_` prefix is stripped of the characters C, L and _
      at both ends, then lower-cased; any other name is only lower-cased. */
  function ColorName(color: string): string {
    if StartsWith(Upper(color), "CL_") then Lower(Strip(color, ColorPrefixChars)) else Lower(color)
  }

  predicate IsLowerWord(n: string) {
    forall i :: 0 <= i < |n| ==> 'a' <= n[i] <= 'z'
  }

  lemma LowerUpper(n: string)
    requires IsLowerWord(n)
    ensures Lower(Upper(n)) == n
  {
  }

  lemma {:induction false} StripLeftOf(p: string, u: string, chars: set<char>)
    requires forall i :: 0 <= i < |p| ==> p[i] in chars
    requires |u| >= 1 && u[0] !in chars
    ensures StripLeft(p + u, chars) == u
    decreases |p|
  {
    if |p| == 0 {
      assert p + u == u;
    } else {
      assert (p + u)[1..] == p[1..] + u;
      StripLeftOf(p[1..], u, chars);
    }
  }

  /** `CL_` followed by an upper-case colour name resolves to that name, as
      long as the name neither starts nor ends with C or L. */
  lemma PrefixedNameResolves(n: string)
    requires |n| >= 1 && IsLowerWord(n)
    requires UpperChar(n[0]) !in ColorPrefixChars && UpperChar(n[|n| - 1]) !in ColorPrefixChars
    ensures ColorName("CL_" + Upper(n)) == n
  {
    var u := Upper(n);
    var s := "CL_" + u;
    assert Upper(s)[..3] == "CL_";
    StripLeftOf("CL_", u, ColorPrefixChars);
    assert StripRight(u, ColorPrefixChars) == u;
    LowerUpper(n);
  }

  /** A plain name is matched regardless of case. */
  lemma PlainNameResolves(n: string)
    requires IsLowerWord(n)
    ensures ColorName(n) == n && ColorName(Upper(n)) == n
  {
    LowerUpper(n);
    assert !StartsWith(Upper(n), "CL_") by {
      if |n| >= 3 {
        assert Upper(n)[2] == UpperChar(n[2]) != '_';
      }
    }
    assert Upper(Upper(n)) == Upper(n);
  }

  /** Because `strip` removes characters rather than a prefix, `CL_CYAN` loses
      the C of "CYAN" as well and names no colour. */
  lemma CyanPrefixRejected(color: string)
    requires color == "CL_CYAN"
    ensures ColorName(color) == "yan" && ColorName(color) !in BaseColorMap()
  {
    CyanStripped(color);
    YanIsNoColor();
  }

  lemma CyanStripped(color: string)
    requires color == "CL_CYAN"
    ensures StartsWith(Upper(color), "CL_") && Strip(color, ColorPrefixChars) == "YAN"
  {
    UpperKeepsPrefix(color);
    assert color == "CL_C" + "YAN";
    StripLeftOf("CL_C", "YAN", ColorPrefixChars);
  }

  lemma UpperKeepsPrefix(s: string)
    requires |s| >= 3 && s[0] == 'C' && s[1] == 'L' && s[2] == '_'
    ensures StartsWith(Upper(s), "CL_")
  {
    assert Upper(s)[..3] == [s[0], s[1], s[2]];
  }

  lemma YanIsNoColor()
    ensures Lower("YAN") == "yan" && "yan" !in BaseColorMap()
  {
  }

  class ConsoleBase {
    /** Whether the terminal accepts characters beyond U+FFFF; fixed when the
        module is loaded. */
    const nonBmpSupported: bool
    var title: string
    var colorMap: map<string, string>
    var textColor: string

    /** `ConsoleBase(title)` with the default text colour. */
    constructor(title: string, nonBmpSupported: bool)
      ensures this.title == title && this.nonBmpSupported == nonBmpSupported
      ensures colorMap == BaseColorMap() && textColor == Code("37")
    {
      this.title := title;
      this.nonBmpSupported := nonBmpSupported;
      colorMap := BaseColorMap();
      textColor := Code("37");
    }

    function TranslateChar(c: char): char {
      if nonBmpSupported || IsBmp(c) then c else Replacement
    }

    /** `translate_non_bmp`: when the terminal does not support them, every
        character from U+10000 up becomes U+FFFD; the rest are kept. */
    function TranslateNonBmp(msg: string): (r: string)
      ensures |r| == |msg|
      ensures nonBmpSupported ==> r == msg
      ensures !nonBmpSupported ==> forall i :: 0 <= i < |r| ==> IsBmp(r[i])
      ensures forall i :: 0 <= i < |msg| && IsBmp(msg[i]) ==> r[i] == msg[i]
      ensures forall i :: 0 <= i < |msg| && !nonBmpSupported && !IsBmp(msg[i]) ==> r[i] == Replacement
    {
      if nonBmpSupported then msg
      else seq(|msg|, i requires 0 <= i < |msg| => TranslateChar(msg[i]))
    }

    /** Translating twice changes nothing more. */
    lemma TranslateIdempotent(msg: string)
      ensures TranslateNonBmp(TranslateNonBmp(msg)) == TranslateNonBmp(msg)
    {
    }

    /** A message already inside the Basic Multilingual Plane is kept as is. */
    lemma TranslateKeepsBmp(msg: string)
      requires forall i :: 0 <= i < |msg| ==> IsBmp(msg[i])
      ensures TranslateNonBmp(msg) == msg
    {
    }

    /** The `text_color` setter: an unknown name raises `ValueError` and
        changes nothing; a known one becomes both the text colour and the
        map's `default` entry. */
    method SetTextColor(color: string) returns (outcome: Outcome)
      modifies this
      ensures var name := ColorName(color);
              if name in old(colorMap) then
                outcome == Done && colorMap == old(colorMap)["default" := old(colorMap)[name]] &&
                textColor == old(colorMap)[name] && title == old(title)
              else
                outcome == Raised(ValueError) && unchanged(this)
    {
      var name := ColorName(color);
      if name !in colorMap {
        return Raised(ValueError);
      }
      colorMap := colorMap["default" := colorMap[name]];
      textColor := colorMap[name];
      outcome := Done;
    }

    /** `format(s, color)`. `template` stands for `template_format`, and
        `pick` for the colour `random.choice` draws when the colour is
        "random". An unknown colour raises `ValueError`; a known one wraps
        the formatted text in its code on both sides. */
    function Format(s: string, color: string, template: string -> string, pick: string): (r: Result<string>)
      requires color == "random" ==> pick in colorMap
      reads this
      ensures r.Err? <==> color != "random" && color !in colorMap
      ensures r.Err? ==> r.error == ValueError
      ensures r.Ok? && color != "random" ==>
                StartsWith(r.value, colorMap[color]) &&
                r.value[|colorMap[color]|..] == template(s) + colorMap[color]
      ensures color == "random" ==> r == Ok(template("{" + pick + "}" + s + "{end" + pick + "}"))
    {
      if color == "random" then Ok(template("{" + pick + "}" + s + "{end" + pick + "}"))
      else if color !in colorMap then Err(ValueError)
      else
        var code := colorMap[color];
        var body := template(s);
        assert (code + body + code)[..|code|] == code;
        assert (code + body + code)[|code|..] == body + code;
        Ok(code + body + code)
    }

    /** `disable`: the title goes back to "Cereja" (the stream redirection it
        also switches off is not part of this model). */
    method Disable()
      modifies this
      ensures title == "Cereja" && colorMap == old(colorMap) && textColor == old(textColor)
    {
      title := "Cereja";
    }
  }
}
