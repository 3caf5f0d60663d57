/** `print_parameter`, `set_string_parameter` and `set_non_string_parameter`:
    rendering one configuration parameter as a Capistrano `set` line. */
module ParameterPrinter {
  import opened Wrappers
  import opened RubyString
  import opened Casting
  import opened TypeCastRules

  /** A configuration parameter as stored: its name, its raw value (nil
      when the column is empty) and whether it is filled in by a prompt. */
  datatype Parameter = Parameter(name: string, value: Option<string>, prompt: bool)

  /** The value rendered: for a prompted parameter the deployment's prompt
      entry under its name (nil when there is none), else the stored value. */
  function EffectiveValue(p: Parameter, promptConfig: map<string, string>): Option<string> {
    if p.prompt then (if p.name in promptConfig then Some(promptConfig[p.name]) else None)
    else p.value
  }

  /** `set :<name>, '<val>'`, with no escaping of quotes inside `val`. */
  function SetStringParameter(name: string, val: string): string {
    "set :" + name + ", '" + val + "'"
  }

  /** `set :<name>, <val>`, the value written verbatim. */
  function SetNonStringParameter(name: string, val: string): string {
    "set :" + name + ", " + val
  }

  /** Length of the run of digits that `s` starts with. */
  function LeadingDigits(s: string): (n: nat)
    ensures n <= |s|
    ensures forall k :: 0 <= k < n ==> IsDigit(s[k])
    ensures n < |s| ==> !IsDigit(s[n])
  {
    if s != [] && IsDigit(s[0]) then 1 + LeadingDigits(s[1..]) else 0
  }

  /** `s =~ /\A\d+\D+/`: a run of digits right at the start, followed by at
      least one non-digit (which may be a newline: `\D` matches it). */
  predicate DigitRunThenNonDigit(s: string) {
    1 <= LeadingDigits(s) < |s|
  }

  predicate IsKeyword(s: string) {
    s == "true" || s == "false" || s == "nil"
  }

  /** The first characters for which `val[0]` selects the verbatim form. */
  predicate VerbatimLead(c: char) {
    c == ':' || c == '%' || c == '[' || c == '{' || IsDigit(c)
  }

  /** `print_parameter(parameter)`: nil when the effective value is nil;
      otherwise the stripped value in the quoted or the verbatim form. */
  function PrintParameter(p: Parameter, promptConfig: map<string, string>): Option<string> {
    match EffectiveValue(p, promptConfig)
    case None => None
    case Some(raw) => Some(Render(p.name, Strip(raw)))
  }

  /** The tests of `print_parameter` on the stripped value, in their order. */
  function Render(name: string, val: string): string {
    if DigitRunThenNonDigit(val) then SetStringParameter(name, val)
    else if IsKeyword(val) then SetNonStringParameter(name, val)
    else if val != [] && VerbatimLead(val[0]) then SetNonStringParameter(name, val)
    else SetStringParameter(name, val)
  }

  /** The regular expression in plain terms: a digit first, and some
      non-digit somewhere after it. */
  lemma DigitRunCharacterised(s: string)
    ensures DigitRunThenNonDigit(s) <==> s != [] && IsDigit(s[0]) && !AllDigits(s)
  {
    var n := LeadingDigits(s);
    if s != [] && IsDigit(s[0]) && !AllDigits(s) {
      var k :| 0 <= k < |s| && !IsDigit(s[k]);
      assert n <= k;
    }
  }

  /** Which values are written verbatim, stated without the order of the
      tests: the three keywords, a value starting with `:`, `%`, `[` or `{`,
      and a non-empty run of digits alone. Everything else is quoted,
      including the empty value and `3a` or `3.5`. */
  ghost predicate RendersVerbatim(val: string) {
    IsKeyword(val)
    || (val != [] && (val[0] == ':' || val[0] == '%' || val[0] == '[' || val[0] == '{'))
    || (val != [] && AllDigits(val))
  }

  /** The order of the tests does not matter: a value is written verbatim
      exactly when it is one of the values above. */
  lemma RenderForm(name: string, val: string)
    ensures Render(name, val) ==
      if RendersVerbatim(val) then SetNonStringParameter(name, val) else SetStringParameter(name, val)
  {
    DigitRunCharacterised(val);
    if IsKeyword(val) {
      assert "true"[0] == 't' && "false"[0] == 'f' && "nil"[0] == 'n';
      assert !IsDigit(val[0]);
    }
  }

  /** The line is nil exactly when the effective value is nil; otherwise it
      is the verbatim form for the values above and the quoted form for all
      others, both holding the stripped value. */
  lemma PrintParameterForm(p: Parameter, promptConfig: map<string, string>)
    ensures PrintParameter(p, promptConfig).None? <==> EffectiveValue(p, promptConfig).None?
    ensures EffectiveValue(p, promptConfig).Some? ==>
      var val := Strip(EffectiveValue(p, promptConfig).value);
      PrintParameter(p, promptConfig) ==
        Some(if RendersVerbatim(val) then SetNonStringParameter(p.name, val) else SetStringParameter(p.name, val))
  {
    if EffectiveValue(p, promptConfig).Some? {
      RenderForm(p.name, Strip(EffectiveValue(p, promptConfig).value));
    }
  }

  /** A stripped value that is empty renders as `set :<name>, ''`: it is
      not left out. */
  lemma EmptyValueQuoted(p: Parameter, promptConfig: map<string, string>)
    requires EffectiveValue(p, promptConfig).Some? && Strip(EffectiveValue(p, promptConfig).value) == []
    ensures PrintParameter(p, promptConfig) == Some("set :" + p.name + ", ''")
  {
    assert |"true"| == 4 && |"false"| == 5 && |"nil"| == 3;
    assert "set :" + p.name + ", '" + [] + "'" == "set :" + p.name + ", ''";
  }

  /** A port number is written verbatim. */
  lemma ExamplePort(pc: map<string, string>)
    ensures PrintParameter(Parameter("port", Some("8080"), false), pc) == Some("set :port, 8080")
  {
    StripTrimmed("8080");
    assert LeadingDigits("8080") == 4;
    assert "8080" != "true" && "8080" != "false" && "8080" != "nil";
    assert SetNonStringParameter("port", "8080") == "set :port, 8080";
  }

  /** A host name is quoted. */
  lemma ExampleHost(pc: map<string, string>)
    ensures PrintParameter(Parameter("host", Some("example.com"), false), pc) == Some("set :host, 'example.com'")
  {
    StripTrimmed("example.com");
    assert LeadingDigits("example.com") == 0;
    assert |"true"| == 4 && |"false"| == 5 && |"nil"| == 3;
    assert !VerbatimLead('e');
    assert SetStringParameter("host", "example.com") == "set :host, 'example.com'";
  }

  /** Digits followed by something else are quoted, despite the leading digit. */
  lemma ExampleDigitsThenLetter(pc: map<string, string>)
    ensures PrintParameter(Parameter("x", Some("3a"), false), pc) == Some("set :x, '3a'")
  {
    StripTrimmed("3a");
    assert LeadingDigits("3a") == 1;
    assert SetStringParameter("x", "3a") == "set :x, '3a'";
  }

  /** The quoted form reads back: `type_cast` of the literal `'<val>'`
      written into a quoted line is the string `val` itself, even when `val`
      holds quotes, as long as it is on one line. */
  lemma QuotedValueReadsBack(val: string)
    requires '\n' !in val
    ensures TypeCast(Some("'" + val + "'")) == Str(val)
  {
    var t := "'" + val + "'";
    assert t[0] == '\'' && t[|t| - 1] == '\'' && '\n' !in t;
    assert Trimmed(t);
    SingleQuotedAtom(t);
    assert t[1..|t| - 1] == val;
  }
}
