/** The leaf actions, which turn one matched token into one value, and the
    small actions that wrap a description, a string parameter or a reference
    (domm/domm/actions.py: NamedElementAction, StringAction, IdAction,
    IntAction, ElipsisAction, ConstraintParamAction, RefAction). */
module Leaves {
  import opened Metamodel
  import opened Children

  /** IdAction: the matched lexeme, qualified by the namespace path the parser
      has in force at this reduction. */
  function IdAction(value: string, namespace: seq<string>): (r: Id)
    ensures r.name == value
    ensures r.namespace == namespace
  {
    Id(value, namespace)
  }

  /** StringAction: the first child; an empty child list raises IndexError. */
  function StringAction(children: seq<Child>): (r: Result<Child>)
    ensures r.Ok? <==> |children| > 0
    ensures r.Ok? ==> r.value == children[0]
    ensures r.Err? ==> r.error == IndexOutOfRange(0, 0)
  {
    if |children| == 0 then Err(IndexOutOfRange(0, 0)) else Ok(children[0])
  }

  /** ElipsisAction: the variadic marker of a constraint definition. */
  function ElipsisAction(): Child
  {
    Token("...")
  }

  predicate IsDigit(c: char)
  {
    '0' <= c <= '9'
  }

  function DigitValue(c: char): nat
    requires IsDigit(c)
  {
    c as int - '0' as int
  }

  function DigitChar(d: nat): (c: char)
    requires d < 10
    ensures IsDigit(c) && DigitValue(c) == d
  {
    ('0' as int + d) as char
  }

  /** The value of a non-empty run of decimal digits; `None` for anything else. */
  function ParseDigits(s: string): (r: Option<nat>)
    ensures r.Some? <==> |s| > 0 && forall i :: 0 <= i < |s| ==> IsDigit(s[i])
  {
    if |s| == 0 || !IsDigit(s[|s| - 1]) then None
    else if |s| == 1 then Some(DigitValue(s[0]))
    else
      match ParseDigits(s[..|s| - 1])
      case None => None
      case Some(n) => Some(10 * n + DigitValue(s[|s| - 1]))
  }

  /** The text after an optional leading sign. */
  function Unsigned(s: string): string
  {
    if |s| > 0 && (s[0] == '-' || s[0] == '+') then s[1..] else s
  }

  /** Decimal integer literal syntax: an optional sign, then one or more digits. */
  predicate IsIntLiteral(s: string)
  {
    |Unsigned(s)| > 0 && forall i :: 0 <= i < |Unsigned(s)| ==> IsDigit(Unsigned(s)[i])
  }

  /** IntAction: `int(node.value)`; text that is not a literal raises ValueError. */
  function IntAction(value: string): (r: Result<int>)
    ensures r.Ok? <==> IsIntLiteral(value)
    ensures r.Err? ==> r.error == InvalidLiteral(value)
  {
    var negative := |value| > 0 && value[0] == '-';
    var digits := ParseDigits(Unsigned(value));
    if digits.None? then Err(InvalidLiteral(value))
    else
      var n: int := digits.value;
      Ok(if negative then -n else n)
  }

  /** The shortest decimal spelling of a natural number. */
  function DigitsText(n: nat): (s: string)
    ensures |s| > 0 && IsDigit(s[0])
  {
    if n < 10 then [DigitChar(n)] else DigitsText(n / 10) + [DigitChar(n % 10)]
  }

  /** The decimal spelling of an integer, with a leading '-' when negative. */
  function IntText(n: int): string
  {
    if n < 0 then "-" + DigitsText(-n) else DigitsText(n)
  }

  lemma {:induction false} DigitsRoundTrip(n: nat)
    ensures ParseDigits(DigitsText(n)) == Some(n)
  {
    if n >= 10 {
      DigitsRoundTrip(n / 10);
      var s := DigitsText(n / 10) + [DigitChar(n % 10)];
      assert s[..|s| - 1] == DigitsText(n / 10);
    }
  }

  /** IntAction reads back every integer from its decimal spelling. */
  lemma {:induction false} IntActionRoundTrip(n: int)
    ensures IntAction(IntText(n)) == Ok(n)
  {
    if n < 0 {
      DigitsRoundTrip(-n);
      var s := "-" + DigitsText(-n);
      assert s[0] == '-' && s[1..] == DigitsText(-n);
      assert Unsigned(s) == DigitsText(-n);
    } else {
      DigitsRoundTrip(n);
      var s := DigitsText(n);
      assert IsDigit(s[0]);
      assert Unsigned(s) == s;
    }
  }

  /** `x != '"'` */
  predicate NotQuote(c: Child)
  {
    c != Token("\"")
  }

  /** A child that is not Python `None`. */
  function Present(c: Child): Option<Child>
  {
    if c.NoneValue? then None else Some(c)
  }

  /** NamedElementAction: after the quote marks are dropped, the element is
      absent exactly when every remaining child is `None`; otherwise the child
      at position 0 (if present) is the short description and the last present
      child after it is the long description. */
  method NamedElementAction(children: seq<Child>) returns (r: Option<NamedElement>)
    ensures r.None? <==> forall k :: 0 <= k < |Filter(children, NotQuote)| ==> Filter(children, NotQuote)[k] == NoneValue
    ensures r.Some? ==> r.value.shortDesc.Some? || r.value.longDesc.Some?
    ensures r.Some? ==> |Filter(children, NotQuote)| > 0
    ensures r.Some? ==> r.value.shortDesc == Present(Filter(children, NotQuote)[0])
    ensures r.Some? ==> r.value.longDesc == Last(Filter(children, NotQuote)[1..], Present)
  {
    var f := Filter(children, NotQuote);
    r := None;
    for ind := 0 to |f|
      invariant r.None? <==> forall k :: 0 <= k < ind ==> f[k] == NoneValue
      invariant r.Some? ==> r.value.shortDesc.Some? || r.value.longDesc.Some?
      invariant r.Some? ==> r.value.shortDesc == Present(f[0])
      invariant r.Some? ==> r.value.longDesc == if ind <= 1 then None else Last(f[1..ind], Present)
    {
      var val := f[ind];
      if ind >= 1 {
        assert f[1..ind + 1] == f[1..ind] + [val];
        LastSnoc(f[1..ind], val, Present);
      }
      if val != NoneValue {
        if r.None? {
          r := Some(NamedElement(None, None));
        }
        if ind == 0 {
          r := Some(r.value.(shortDesc := Some(val)));
        } else {
          r := Some(r.value.(longDesc := Some(val)));
        }
      }
    }
    assert r.Some? ==> f[1..] == f[1..|f|];
    assert f == Filter(children, NotQuote);
  }

  /** Stated on the raw children: the description is absent exactly when
      every child is `None` or a quote mark. */
  lemma NamedElementAbsent(children: seq<Child>)
    ensures (forall k :: 0 <= k < |Filter(children, NotQuote)| ==> Filter(children, NotQuote)[k] == NoneValue) <==>
      forall k :: 0 <= k < |children| ==> children[k] == NoneValue || children[k] == Token("\"")
  {
    var f := Filter(children, NotQuote);
    if forall k :: 0 <= k < |f| ==> f[k] == NoneValue {
      forall k | 0 <= k < |children|
        ensures children[k] == NoneValue || children[k] == Token("\"")
      {
        FilterMembers(children, NotQuote, children[k]);
        if NotQuote(children[k]) {
          var j :| 0 <= j < |f| && f[j] == children[k];
        }
      }
    }
    if forall k :: 0 <= k < |children| ==> children[k] == NoneValue || children[k] == Token("\"") {
      forall k | 0 <= k < |f|
        ensures f[k] == NoneValue
      {
        FilterMembers(children, NotQuote, f[k]);
        var j :| 0 <= j < |children| && children[j] == f[k];
      }
    }
  }

  /** `x` itself unless it is the quote mark. */
  function Unquoted(c: Child): Option<Child>
  {
    if c == Token("\"") then None else Some(c)
  }

  /** ConstraintParamAction: the last child that is not a quote mark, wrapped
      in a StrObj; the empty string when every child is a quote mark. */
  method ConstraintParamAction(children: seq<Child>) returns (r: Child)
    ensures r == Token("") <==> forall k :: 0 <= k < |children| ==> children[k] == Token("\"")
    ensures r.Token? || r.StrObjValue?
    ensures r != Token("") ==> r.StrObjValue? && Last(children, Unquoted) == Some(r.strObj.content)
  {
    r := Token("");
    for i := 0 to |children|
      invariant r == if Last(children[..i], Unquoted).None? then Token("") else StrObjValue(StrObj(Last(children[..i], Unquoted).value))
    {
      assert children[..i + 1] == children[..i] + [children[i]];
      LastSnoc(children[..i], children[i], Unquoted);
      var x := children[i];
      if x != Token("\"") {
        r := StrObjValue(StrObj(x));
      }
    }
    assert children[..|children|] == children;
    LastNone(children, Unquoted);
  }

  /** RefAction: a reference to the last identifier child; `None` when there
      is no identifier child. */
  method RefAction(children: seq<Child>) returns (r: Option<RefObj>)
    ensures r.None? <==> forall k :: 0 <= k < |children| ==> !children[k].IdValue?
    ensures r.Some? ==> Last(children, IdOf) == Some(r.value.ident)
  {
    r := None;
    for i := 0 to |children|
      invariant r.None? <==> forall k :: 0 <= k < i ==> !children[k].IdValue?
      invariant r.Some? ==> Last(children[..i], IdOf) == Some(r.value.ident)
    {
      assert children[..i + 1] == children[..i] + [children[i]];
      LastSnoc(children[..i], children[i], IdOf);
      if children[i].IdValue? {
        r := Some(RefObj(children[i].id));
      }
    }
    assert children[..|children|] == children;
  }
}
