/** The FormatterExtension filters `newline` and `formatInline`, and the
    argument decoding of getCallableArguments() they rely on. The HTML
    formatting itself (Format::newline, Format::backtickCodeTags) belongs to
    another package and is a parameter. */
module Formatter {
  import opened Php

  /** A value passed to a filter: a string, an array of attributes, or
      anything else. */
  datatype Value = Str(s: string) | Arr(attrs: Assoc<string>) | Other

  /** One entry of the filter's variadic `...$args`: positional (key 0) or
      named. */
  datatype Arg = Positional(value: Value) | Named(name: string, value: Value)

  /** getCallableArguments(): no argument gives a null condition and no
      attributes. More than one argument is a BadMethodCallException. A
      positional argument is the condition itself. A named argument is the
      condition (its name) with its value as the attributes, which must be an
      array. */
  function GetCallableArguments(args: seq<Arg>): (r: Result<(Option<Value>, Assoc<string>)>)
    ensures r.Err? ==> r.error == BadMethodCall
    ensures args == [] ==> r == Ok((None, []))
    ensures |args| == 1 && args[0].Positional? ==> r == Ok((Some(args[0].value), []))
    ensures |args| == 1 && args[0].Named? && args[0].value.Arr? ==>
      r == Ok((Some(Str(args[0].name)), args[0].value.attrs))
  {
    if args == [] then Ok((None, []))
    else if |args| > 1 then Err(BadMethodCall)
    else match args[0]
      case Positional(v) => Ok((Some(v), []))
      case Named(name, v) => if v.Arr? then Ok((Some(Str(name)), v.attrs)) else Err(BadMethodCall)
  }

  /** The decoding succeeds exactly for at most one argument that, when
      named, carries an array. */
  lemma CallableArgumentsOk(args: seq<Arg>)
    ensures GetCallableArguments(args).Ok? <==>
      |args| <= 1 && (|args| == 1 && args[0].Named? ==> args[0].value.Arr?)
  {
  }

  /** Newline::Span, Newline::Paragraph and Newline::Auto. */
  datatype NewlineMode = Span | Paragraph | Auto

  /** The `match` of newline(): the condition 's' or 'p', compared strictly. */
  function Mode(condition: Option<Value>): (m: NewlineMode)
    ensures m == Span <==> condition == Some(Str("s"))
    ensures m == Paragraph <==> condition == Some(Str("p"))
  {
    if condition == Some(Str("s")) then Span
    else if condition == Some(Str("p")) then Paragraph
    else Auto
  }

  /** newline(string, ...args): the formatted HTML, or the decoding error
      before anything is formatted. */
  function Newline(s: string, args: seq<Arg>, format: (string, NewlineMode, Assoc<string>) -> string): (r: Result<string>)
    ensures GetCallableArguments(args).Err? ==> r == Err(BadMethodCall)
    ensures GetCallableArguments(args).Ok? ==>
      var (condition, attributes) := GetCallableArguments(args).value;
      r == Ok(format(s, Mode(condition), attributes))
  {
    match GetCallableArguments(args)
      case Err(e) => Err(e)
      case Ok((condition, attributes)) => Ok(format(s, Mode(condition), attributes))
  }

  /** The ways templates call the filter: `|newline`, `|newline: 'p'`,
      `|newline: s: [attributes]`, and a named argument without an array. */
  lemma NewlineCalls(s: string, format: (string, NewlineMode, Assoc<string>) -> string, attrs: Assoc<string>, name: string, x: string)
    ensures Newline(s, [], format) == Ok(format(s, Auto, []))
    ensures Newline(s, [Positional(Str("p"))], format) == Ok(format(s, Paragraph, []))
    ensures Newline(s, [Named("s", Arr(attrs))], format) == Ok(format(s, Span, attrs))
    ensures name != "s" && name != "p" ==> Newline(s, [Named(name, Arr(attrs))], format) == Ok(format(s, Auto, attrs))
    ensures Newline(s, [Named(name, Str(x))], format) == Err(BadMethodCall)
    ensures Newline(s, [Positional(Str(x)), Positional(Str(x))], format) == Err(BadMethodCall)
  {
    assert Mode(Some(Str("p"))) == Paragraph;
    assert Mode(Some(Str("s"))) == Span;
  }

  /** formatInline(string): the backtick formatter applied. */
  function FormatInline(s: string, backtickCodeTags: string -> string): (r: string)
    ensures r == backtickCodeTags(s)
  {
    backtickCodeTags(s)
  }

  /** The two filters getFilters() registers. */
  datatype Filter = NewlineFilter | FormatInlineFilter

  function GetFilters(): (fs: Assoc<Filter>)
    ensures Lookup(fs, "newline") == Some(NewlineFilter)
    ensures Lookup(fs, "formatInline") == Some(FormatInlineFilter)
    ensures |fs| == 2
  {
    [("newline", NewlineFilter), ("formatInline", FormatInlineFilter)]
  }
}
