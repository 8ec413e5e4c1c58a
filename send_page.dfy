/** The pure helpers of the transfer page: the address pattern checked on the trimmed input, the
    class-name joiner, the submit-button condition and the request body it posts. */
module SendPage {
  import opened Common
  import opened JsText
  import SendNative

  /** The recipient the form starts with. */
  const DefaultRecipient := "0x70997970C51812dc3A010C7d01b50e0d17dc79C8"
  const DefaultAmount := "0.01"

  // ------------------------------------------------------ address pattern

  /** The character class `[a-fA-F0-9]`. */
  predicate IsHexDigit(c: char) {
    ('0' <= c <= '9') || ('a' <= c <= 'f') || ('A' <= c <= 'F')
  }

  /** `[a-fA-F0-9]{n}$`: exactly `n` hex digits and then the end of the input. */
  predicate HexRun(s: string, n: nat)
    decreases n
  {
    if n == 0 then s == [] else s != [] && IsHexDigit(s[0]) && HexRun(s[1..], n - 1)
  }

  /** `/^0x[a-fA-F0-9]{40}$/.test(s)`, matched left to right. */
  predicate MatchesAddressPattern(s: string) {
    |s| >= 2 && s[0] == '0' && s[1] == 'x' && HexRun(s[2..], 40)
  }

  lemma {:induction false} HexRunShape(s: string, n: nat)
    ensures HexRun(s, n) <==> |s| == n && forall i :: 0 <= i < |s| ==> IsHexDigit(s[i])
    decreases n
  {
    if n > 0 && s != [] {
      HexRunShape(s[1..], n - 1);
      assert forall i :: 0 < i < |s| ==> s[i] == s[1..][i - 1];
    }
  }

  /** An address is `0x` and forty hex digits, so exactly 42 characters long. */
  lemma AddressPatternShape(s: string)
    ensures MatchesAddressPattern(s) <==>
              |s| == 42 && s[0] == '0' && s[1] == 'x' && forall i :: 2 <= i < 42 ==> IsHexDigit(s[i])
  {
    if |s| >= 2 {
      HexRunShape(s[2..], 40);
      assert forall i :: 2 <= i < |s| ==> s[i] == s[2..][i - 2];
    }
  }

  /** The form's `validAddress`: the pattern tested on the trimmed input. */
  predicate ValidAddress(to: string) {
    MatchesAddressPattern(Trim(to))
  }

  /** White space typed around a recipient never changes the verdict. */
  lemma ValidAddressPadded(w1: string, to: string, w2: string)
    requires AllSpace(w1) && AllSpace(w2)
    ensures ValidAddress(w1 + to + w2) == ValidAddress(to)
  {
    TrimPadded(w1, to, w2);
  }

  /** The recipient the form starts with is accepted as it stands. */
  lemma DefaultRecipientValid()
    ensures MatchesAddressPattern(DefaultRecipient) && Trim(DefaultRecipient) == DefaultRecipient
    ensures ValidAddress(DefaultRecipient)
  {
    assert Trim(DefaultRecipient) == DefaultRecipient by {
      var s := DefaultRecipient;
      assert !IsSpace(s[0]) && !IsSpace(s[|s| - 1]);
      TrimUnpadded(s);
    }
    DefaultRecipientMatches();
  }

  lemma DefaultRecipientMatches()
    ensures MatchesAddressPattern(DefaultRecipient)
  {
    var s := DefaultRecipient;
    assert forall i :: 2 <= i < 42 ==> IsHexDigit(s[i]);
    AddressPatternShape(s);
  }

  // ----------------------------------------------------------------- cn

  /** An argument of `cn`: a class name, `false` or `undefined`. */
  datatype ClassArg = Class(name: string) | False | Undefined

  /** `Boolean(arg)`: a non-empty class name. */
  predicate IsTruthyClass(a: ClassArg) {
    a.Class? && a.name != ""
  }

  /** The text each argument stands for: its name, or `""` for `false` and `undefined`. */
  function NameOf(a: ClassArg): string {
    if a.Class? then a.name else ""
  }

  /** The arguments' texts, in argument order. */
  function ArgNames(args: seq<ClassArg>): (ts: seq<string>)
    ensures |ts| == |args|
    decreases |args|
  {
    if args == [] then [] else [NameOf(args[0])] + ArgNames(args[1..])
  }

  /** How many arguments are non-empty class names. */
  function TruthyCount(args: seq<ClassArg>): nat
    decreases |args|
  {
    if args == [] then 0 else (if IsTruthyClass(args[0]) then 1 else 0) + TruthyCount(args[1..])
  }

  /** `classes.filter(Boolean)`: the non-empty names, in argument order. Being an ordered
      selection of the arguments' texts, as many as there are truthy arguments, and none of them
      empty, the result holds exactly the truthy names. */
  function TruthyClasses(args: seq<ClassArg>): (names: seq<string>)
    ensures IsSubsequence(names, ArgNames(args))
    ensures |names| == TruthyCount(args)
    ensures forall k :: 0 <= k < |names| ==> names[k] != ""
    ensures names == [] <==> forall k :: 0 <= k < |args| ==> !IsTruthyClass(args[k])
    ensures forall k :: 0 <= k < |args| && IsTruthyClass(args[k]) ==> args[k].name in names
    decreases |args|
  {
    if args == [] then []
    else
      var rest := TruthyClasses(args[1..]);
      assert forall k :: 0 < k < |args| ==> args[k] == args[1..][k - 1];
      assert ArgNames(args)[1..] == ArgNames(args[1..]);
      if IsTruthyClass(args[0]) then [args[0].name] + rest else rest
  }

  /** With every argument a non-empty class name, nothing is dropped. */
  lemma {:induction false} AllTruthyKept(args: seq<ClassArg>)
    requires forall k :: 0 <= k < |args| ==> IsTruthyClass(args[k])
    ensures TruthyClasses(args) == ArgNames(args)
    decreases |args|
  {
    if args != [] {
      AllTruthyKept(args[1..]);
    }
  }

  /** `cn(...classes)`: the truthy names joined with single spaces, `""` when there are none. */
  function Cn(args: seq<ClassArg>): (r: string)
    ensures r == "" <==> forall k :: 0 <= k < |args| ==> !IsTruthyClass(args[k])
  {
    var names := TruthyClasses(args);
    if names == [] then Join(names, ' ')
    else
      JoinNonEmpty(names, ' ');
      Join(names, ' ')
  }

  lemma {:induction false} JoinNonEmpty(parts: seq<string>, sep: char)
    requires parts != [] && parts[0] != ""
    ensures Join(parts, sep) != ""
  {
    if |parts| > 1 {
      assert Join(parts, sep)[0] == parts[0][0];
    }
  }

  /** Splitting `cn`'s result at spaces gives back the truthy names, when none of them holds a space. */
  lemma CnRoundTrip(args: seq<ClassArg>)
    requires exists k :: 0 <= k < |args| && IsTruthyClass(args[k])
    requires forall k :: 0 <= k < |args| && args[k].Class? ==> ' ' !in args[k].name
    ensures Split(Cn(args), ' ') == TruthyClasses(args)
  {
    NamesFromArgs(args);
    SplitJoin(TruthyClasses(args), ' ');
  }

  /** Whatever the class names hold (the page passes strings of several space-separated classes),
      splitting `cn`'s result at single spaces gives the pieces of each kept name, in order. */
  lemma CnPieces(args: seq<ClassArg>)
    requires exists k :: 0 <= k < |args| && IsTruthyClass(args[k])
    ensures Split(Cn(args), ' ') == SplitEach(TruthyClasses(args), ' ')
  {
    SplitJoinPieces(TruthyClasses(args), ' ');
  }

  lemma {:induction false} NamesFromArgs(args: seq<ClassArg>)
    requires forall k :: 0 <= k < |args| && args[k].Class? ==> ' ' !in args[k].name
    ensures forall k :: 0 <= k < |TruthyClasses(args)| ==> ' ' !in TruthyClasses(args)[k]
    decreases |args|
  {
    if args != [] {
      NamesFromArgs(args[1..]);
    }
  }

  // ------------------------------------------------------ submit and body

  /** `disabled={!validAddress || !validAmount || loading}`; the amount check parses JavaScript
      numbers and stands here as its verdict. */
  function SubmitEnabled(to: string, amountValid: bool, loading: bool): (enabled: bool)
    ensures enabled ==> |Trim(to)| == 42
    ensures enabled <==> ValidAddress(to) && amountValid && !loading
  {
    AddressPatternShape(Trim(to));
    !(!ValidAddress(to) || !amountValid || loading)
  }

  /** The posted body `{ to: to.trim(), amountEth: amountEth.trim() }`: each field is what was
      typed, without the white space around it. */
  function RequestBody(to: string, amountEth: string): (body: (string, string))
    ensures IsTrimmedFrom(body.0, to) && IsTrimmedFrom(body.1, amountEth)
    ensures Trim(body.0) == body.0 && Trim(body.1) == body.1
    ensures MatchesAddressPattern(body.0) <==> ValidAddress(to)
  {
    TrimIsSlice(to);
    TrimIsSlice(amountEth);
    TrimIdempotent(to);
    TrimIdempotent(amountEth);
    (Trim(to), Trim(amountEth))
  }

  /** White space typed around either field never reaches the request. */
  lemma RequestBodyPadded(w1: string, to: string, w2: string, w3: string, amountEth: string, w4: string)
    requires AllSpace(w1) && AllSpace(w2) && AllSpace(w3) && AllSpace(w4)
    ensures RequestBody(w1 + to + w2, w3 + amountEth + w4) == RequestBody(to, amountEth)
  {
    TrimPadded(w1, to, w2);
    TrimPadded(w3, amountEth, w4);
  }

  /** What the send route hands the handler for a posted body: no method and both fields as strings. */
  function HandlerEvent(body: (string, string)): SendNative.Event {
    SendNative.Event(None, SendNative.Fields(SendNative.Str(body.0), SendNative.Str(body.1)))
  }

  /** A send the button allows, with an amount that is not blank, always passes the handler's
      required-field check: the handler then submits or fails upstream, never answers 400. */
  lemma EnabledSendPassesFieldCheck(to: string, amountEth: string, loading: bool, signer: SendNative.Signer)
    requires SubmitEnabled(to, true, loading)
    requires Trim(amountEth) != ""
    ensures SendNative.HasRequiredFields(HandlerEvent(RequestBody(to, amountEth)))
    ensures SendNative.Handle(HandlerEvent(RequestBody(to, amountEth)), signer).0.statusCode in {200, 500}
  {
    PostedFieldsPresent(to, amountEth);
    SubmitOrUpstreamFailure(HandlerEvent(RequestBody(to, amountEth)), signer);
  }

  lemma PostedFieldsPresent(to: string, amountEth: string)
    requires Trim(to) != "" && Trim(amountEth) != ""
    ensures SendNative.HasRequiredFields(HandlerEvent(RequestBody(to, amountEth)))
  {
    var body := (Trim(to), Trim(amountEth));
    assert RequestBody(to, amountEth) == body;
    assert SendNative.Truthy(SendNative.Str(body.0)) && SendNative.Truthy(SendNative.Str(body.1));
  }

  /** The form as it starts, with its amount judged valid, can be sent, and its request passes
      the handler's required-field check. */
  lemma DefaultFormPassesFieldCheck()
    ensures SubmitEnabled(DefaultRecipient, true, false)
    ensures SendNative.HasRequiredFields(HandlerEvent(RequestBody(DefaultRecipient, DefaultAmount)))
  {
    var to, amount := DefaultRecipient, DefaultAmount;
    assert Trim(to) != "" && ValidAddress(to) by {
      DefaultRecipientValid();
    }
    assert Trim(amount) != "" by {
      assert !IsSpace(amount[0]) && !IsSpace(amount[|amount| - 1]);
      TrimUnpadded(amount);
    }
    PostedFieldsPresent(to, amount);
  }

  lemma SubmitOrUpstreamFailure(ev: SendNative.Event, signer: SendNative.Signer)
    requires SendNative.HasRequiredFields(ev)
    ensures SendNative.Handle(ev, signer).0.statusCode in {200, 500}
  {
    var out := SendNative.Handle(ev, signer);
    assert out.0.statusCode != 204 && out.0.statusCode != 400;
  }
}
