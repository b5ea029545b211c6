/** The membership checks of `shared/validator/validator_enum.py`: against
    a list, or against the values of an `Enum` class. Neither normalises
    the value: it must be one of the allowed strings exactly. */
module ValidatorEnum {
  import opened Results
  import opened Text
  import opened Dicts
  import opened Validator

  /** `validate_enum_by_list`: the value comes back unchanged when it is
      allowed; otherwise the message lists the allowed values. */
  function ValidateByList(value: string, allowed: seq<string>): (r: Result<string>)
    ensures r.Ok? <==> value in allowed
    ensures r.Ok? ==> r.value == value
    ensures r.Err? ==> r.error == ValueError(EnumMessage(allowed))
  {
    if value in allowed then Ok(value) else Err(ValueError(EnumMessage(allowed)))
  }

  /** `validate_enum` on a present value is `validate_enum_by_list`: the
      two accept the same values and give the same message. */
  lemma EnumAgreesWithByList(value: string, allowed: seq<string>)
    ensures ValidateEnum(Some(value), allowed) == ValidateByList(value, allowed)
  {
  }

  /** An `Enum` class as the values of its members in declaration order. A
      value declared a second time makes that member an alias of the first,
      and iterating the class visits only the first. */
  datatype EnumClass = EnumClass(declared: seq<string>)

  /** `[e.value for e in enum_class]`: the declared values with later
      duplicates dropped. */
  function MemberValues(e: EnumClass): (vs: seq<string>)
    ensures forall v :: v in vs <==> v in e.declared
    ensures Distinct(vs)
    ensures |vs| <= |e.declared|
    ensures InFirstOccurrenceOrder(vs, e.declared)
  {
    FirstOccurrencesOrdered(e.declared);
    FirstOccurrences(e.declared)
  }

  /** The position where `v` first occurs in `s`. */
  function FirstIndex(s: seq<string>, v: string): (k: nat)
    requires v in s
    ensures k < |s| && s[k] == v && v !in s[..k]
  {
    if s[0] == v then 0
    else
      assert v in s[1..];
      var k := FirstIndex(s[1..], v);
      assert s[..1 + k] == [s[0]] + s[1..][..k];
      1 + k
  }

  /** Every element of `r` occurs in `s`, and `r` lists them by where they
      first occur in `s`. */
  predicate InFirstOccurrenceOrder(r: seq<string>, s: seq<string>) {
    && (forall i :: 0 <= i < |r| ==> r[i] in s)
    && forall i, j :: 0 <= i < j < |r| ==> FirstIndex(s, r[i]) < FirstIndex(s, r[j])
  }

  /** A value found in a prefix is first found at the same place in the
      whole sequence. */
  lemma FirstIndexOfPrefix(s: seq<string>, n: nat, v: string)
    requires n <= |s| && v in s[..n]
    ensures FirstIndex(s, v) == FirstIndex(s[..n], v)
  {
    var k := FirstIndex(s[..n], v);
    var K := FirstIndex(s, v);
    assert s[k] == v;
  }

  /** A value missing from the rest of `s` first occurs at its end. */
  lemma FirstIndexAtEnd(s: seq<string>)
    requires |s| > 0 && s[|s| - 1] !in s[..|s| - 1]
    ensures FirstIndex(s, s[|s| - 1]) == |s| - 1
  {
  }

  lemma {:induction false} FirstOccurrencesOrdered(s: seq<string>)
    ensures InFirstOccurrenceOrder(FirstOccurrences(s), s)
    decreases |s|
  {
    if s != [] {
      var n := |s| - 1;
      var init := s[..n];
      assert s == init + [s[n]];
      FirstOccurrencesOrdered(init);
      OrderInLonger(FirstOccurrences(init), s, n);
      if s[n] !in FirstOccurrences(init) {
        AppendFirstOccurrence(FirstOccurrences(init), s);
      }
    }
  }

  /** Extending `s` past a prefix keeps the order of values found in the prefix. */
  lemma OrderInLonger(r: seq<string>, s: seq<string>, n: nat)
    requires n <= |s| && InFirstOccurrenceOrder(r, s[..n])
    ensures InFirstOccurrenceOrder(r, s)
    ensures forall i :: 0 <= i < |r| ==> FirstIndex(s, r[i]) < n
  {
    forall i | 0 <= i < |r| ensures r[i] in s && FirstIndex(s, r[i]) == FirstIndex(s[..n], r[i]) {
      FirstIndexOfPrefix(s, n, r[i]);
    }
  }

  /** A value that first occurs at the end of `s` comes after all the others. */
  lemma AppendFirstOccurrence(r: seq<string>, s: seq<string>)
    requires |s| > 0 && s[|s| - 1] !in s[..|s| - 1]
    requires InFirstOccurrenceOrder(r, s)
    requires forall i :: 0 <= i < |r| ==> FirstIndex(s, r[i]) < |s| - 1
    ensures InFirstOccurrenceOrder(r + [s[|s| - 1]], s)
  {
    var last := s[|s| - 1];
    FirstIndexAtEnd(s);
    var t := r + [last];
    forall i | 0 <= i < |t| ensures t[i] in s {
      if i < |r| { assert t[i] == r[i]; }
    }
    forall i, j | 0 <= i < j < |t| ensures FirstIndex(s, t[i]) < FirstIndex(s, t[j]) {
      assert t[i] == r[i];
      if j < |r| {
        assert t[j] == r[j];
      } else {
        assert t[j] == last;
      }
    }
  }

  function FirstOccurrences(s: seq<string>): (r: seq<string>)
    ensures forall v :: v in r <==> v in s
    ensures Distinct(r)
    ensures |r| <= |s|
  {
    if s == [] then []
    else
      var init := FirstOccurrences(s[..|s| - 1]);
      var last := s[|s| - 1];
      assert s == s[..|s| - 1] + [last];
      if last in init then init else init + [last]
  }

  /** `validate_enum_by_class`: membership in the member values, with the
      message listing them. */
  function ValidateByClass(value: string, e: EnumClass): (r: Result<string>)
    ensures r.Ok? <==> value in e.declared
    ensures r.Ok? ==> r.value == value
    ensures r.Err? ==> r.error == ValueError(EnumMessage(MemberValues(e)))
  {
    ValidateByList(value, MemberValues(e))
  }

  /** Without aliases the member values are the declared values, in order,
      so checking against the class is checking against that list. */
  lemma ByClassWithoutAliases(value: string, vs: seq<string>)
    requires Distinct(vs)
    ensures MemberValues(EnumClass(vs)) == vs
    ensures ValidateByClass(value, EnumClass(vs)) == ValidateByList(value, vs)
  {
    FirstOccurrencesOfDistinct(vs);
  }

  lemma {:induction false} FirstOccurrencesOfDistinct(s: seq<string>)
    requires Distinct(s)
    ensures FirstOccurrences(s) == s
    decreases |s|
  {
    if s != [] {
      var init := s[..|s| - 1];
      assert Distinct(init);
      FirstOccurrencesOfDistinct(init);
      assert s[|s| - 1] !in init;
      assert init + [s[|s| - 1]] == s;
    }
  }

  /** Aliases do not change which values are accepted, only how often they
      would be listed: declaring a value again accepts nothing new. */
  lemma AliasAcceptsNothingNew(value: string, vs: seq<string>, v: string)
    requires v in vs
    ensures ValidateByClass(value, EnumClass(vs + [v])).Ok? <==> ValidateByClass(value, EnumClass(vs)).Ok?
    ensures MemberValues(EnumClass(vs + [v])) == MemberValues(EnumClass(vs))
  {
    assert (vs + [v])[..|vs|] == vs;
  }

  /** Whitespace around an allowed value is not forgiven: when every allowed
      value is stripped, a value with surrounding whitespace is rejected. */
  lemma PaddedValueRejected(value: string, allowed: seq<string>)
    requires forall i :: 0 <= i < |allowed| ==> IsStripped(allowed[i])
    requires !IsStripped(value)
    ensures ValidateByList(value, allowed).Err?
  {
  }

  /** Case is not folded: an upper-case letter where every allowed value is
      lower case makes the value a stranger. */
  lemma UpperCaseValueRejected(value: string, allowed: seq<string>, k: nat)
    requires forall i :: 0 <= i < |allowed| ==> Lower(allowed[i]) == allowed[i]
    requires k < |value| && 'A' <= value[k] <= 'Z'
    ensures ValidateByList(value, allowed).Err?
  {
  }
}
