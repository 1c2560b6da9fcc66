/**
 * makeValidPhoneNumbers: rewrites each recipient into international form
 * (country code and national number, no '+'), in place, before sending.
 */
module Normalization {
  import opened Wrappers
  import opened GoStrings

  /** The region numbers are parsed for: the Philippines. */
  const DefaultRegion: string := "PH"

  /** Numbers that already start with the country code are left alone. */
  const CountryPrefix: string := "63"

  /**
   * phonenumbers.Parse(phone, region) followed by phonenumbers.Format(pn,
   * phonenumbers.E164): the E.164 text of the number ("+" country code,
   * national number), or the parser's error. The library is not part of this
   * model; callers supply its behaviour.
   */
  type PhoneFormatter = (string, string) -> Result<string, string>

  /**
   * What happens to one entry: kept if it starts with "63"; otherwise parsed
   * for region PH and formatted, with the first '+' removed, or the parse error.
   * An E.164 text always starts with '+', so for the real library the result
   * is the text after it; for any other formatter text the first '+' goes.
   */
  function NormalizeOne(phone: string, format: PhoneFormatter): (r: Result<string, string>)
    ensures HasPrefix(phone, CountryPrefix) ==> r == Success(phone)
    ensures !HasPrefix(phone, CountryPrefix) ==>
      (r.Failure? <==> format(phone, DefaultRegion).Failure?) &&
      (r.Failure? ==> r.error == format(phone, DefaultRegion).error)
    ensures !HasPrefix(phone, CountryPrefix) && format(phone, DefaultRegion).Success? ==>
      var e164 := format(phone, DefaultRegion).value;
      (|e164| > 0 && e164[0] == '+' ==> r == Success(e164[1..])) &&
      ('+' !in e164 ==> r == Success(e164))
  {
    if HasPrefix(phone, CountryPrefix) then Success(phone)
    else
      match format(phone, DefaultRegion)
      case Failure(e) => Failure(e)
      case Success(e164) => Success(RemoveFirst(e164, '+'))
  }

  /** For any formatter text, an unprefixed entry loses the first '+' of it. */
  lemma NormalizeOneRemovesFirstPlus(phone: string, format: PhoneFormatter)
    requires !HasPrefix(phone, CountryPrefix) && format(phone, DefaultRegion).Success?
    ensures var e164 := format(phone, DefaultRegion).value;
      var k := IndexOf(e164, '+');
      NormalizeOne(phone, format) == Success(if k == -1 then e164 else e164[..k] + e164[k + 1..])
  {
  }

  /** The recipients after normalisation, and the error that stopped it, if any. */
  datatype Normalized = Normalized(phones: seq<string>, err: Option<string>)

  /**
   * The effect of makeValidPhoneNumbers on a recipient list: entries are
   * rewritten in order; at the first parse error the rest stay as they were.
   */
  function Normalize(phones: seq<string>, format: PhoneFormatter): (r: Normalized)
    ensures |r.phones| == |phones|
    ensures forall i :: 0 <= i < |phones| && HasPrefix(phones[i], CountryPrefix) ==> r.phones[i] == phones[i]
  {
    if phones == [] then Normalized([], None)
    else
      match NormalizeOne(phones[0], format)
      case Failure(e) => Normalized(phones, Some(e))
      case Success(p) =>
        var rest := Normalize(phones[1..], format);
        assert forall i :: 1 <= i < |phones| ==> phones[i] == phones[1..][i - 1];
        Normalized([p] + rest.phones, rest.err)
  }

  /** Entry `k` is the first one whose normalisation fails. */
  predicate FirstParseFailure(phones: seq<string>, format: PhoneFormatter, k: int) {
    0 <= k < |phones| && NormalizeOne(phones[k], format).Failure? &&
    forall j :: 0 <= j < k ==> NormalizeOne(phones[j], format).Success?
  }

  /** Without a parse error, every entry is replaced by its normalised form. */
  lemma {:induction false} NormalizeSucceeds(phones: seq<string>, format: PhoneFormatter)
    ensures Normalize(phones, format).err == None <==>
      forall i :: 0 <= i < |phones| ==> NormalizeOne(phones[i], format).Success?
    ensures Normalize(phones, format).err == None ==>
      forall i :: 0 <= i < |phones| ==> Normalize(phones, format).phones[i] == NormalizeOne(phones[i], format).value
  {
    if phones != [] {
      var tail := phones[1..];
      NormalizeSucceeds(tail, format);
      assert forall i :: 1 <= i < |phones| ==> phones[i] == tail[i - 1];
      match NormalizeOne(phones[0], format)
      case Failure(e) =>
        assert Normalize(phones, format).err == Some(e);
      case Success(p) =>
        NormalizeCons(phones, format, p);
    }
  }

  /**
   * At a parse error the error is the first failing entry's: the entries
   * before it are rewritten and it and all later ones are left untouched.
   */
  lemma {:induction false} NormalizeStopsAtFirstError(phones: seq<string>, format: PhoneFormatter, k: int)
    requires FirstParseFailure(phones, format, k)
    ensures Normalize(phones, format).err == Some(NormalizeOne(phones[k], format).error)
    ensures forall i :: 0 <= i < k ==> Normalize(phones, format).phones[i] == NormalizeOne(phones[i], format).value
    ensures Normalize(phones, format).phones[k..] == phones[k..]
  {
    if k > 0 {
      var tail := phones[1..];
      assert forall i :: 1 <= i < |phones| ==> phones[i] == tail[i - 1];
      NormalizeStopsAtFirstError(tail, format, k - 1);
      assert phones[k..] == tail[k - 1..];
      assert NormalizeOne(phones[0], format).Success?;
      NormalizeCons(phones, format, NormalizeOne(phones[0], format).value);
      var r := Normalize(phones, format).phones;
      assert r[k..] == r[1..][k - 1..];
    } else {
      assert Normalize(phones, format) == Normalized(phones, Some(NormalizeOne(phones[0], format).error));
    }
  }

  /** A list whose entries all start with "63" is left as it is, without error. */
  lemma {:induction false} NormalizeKeepsPrefixed(phones: seq<string>, format: PhoneFormatter)
    requires forall i :: 0 <= i < |phones| ==> HasPrefix(phones[i], CountryPrefix)
    ensures Normalize(phones, format) == Normalized(phones, None)
  {
    if phones != [] {
      NormalizeKeepsPrefixed(phones[1..], format);
      assert phones == [phones[0]] + phones[1..];
    }
  }

  /**
   * Normalising again changes nothing when the first pass succeeded and
   * produced numbers that start with "63" (as E.164 numbers of the
   * Philippines do once their '+' is removed).
   */
  lemma NormalizeIdempotent(phones: seq<string>, format: PhoneFormatter)
    requires Normalize(phones, format).err == None
    requires forall p :: p in Normalize(phones, format).phones ==> HasPrefix(p, CountryPrefix)
    ensures Normalize(Normalize(phones, format).phones, format) == Normalize(phones, format)
  {
    var r := Normalize(phones, format);
    assert r == Normalized(r.phones, None);
    NormalizeKeepsPrefixed(r.phones, format);
  }

  /** Normalising a non-empty list whose head normalises to `p`. */
  lemma NormalizeCons(phones: seq<string>, format: PhoneFormatter, p: string)
    requires phones != [] && NormalizeOne(phones[0], format) == Success(p)
    ensures Normalize(phones, format).phones == [p] + Normalize(phones[1..], format).phones
    ensures Normalize(phones, format).err == Normalize(phones[1..], format).err
  {
  }

  /**
   * The unit-test vector of makeValidPhoneNumbers: two local numbers, one
   * already in form and one with '+', given the E.164 texts the library
   * produces for the three that do not start with "63".
   */
  lemma NormalizeTestVector(format: PhoneFormatter, local0: string, local1: string, formed: string, plus: string,
                            n0: string, n1: string, n3: string)
    requires local0 == "092623456789" && local1 == "095823456789" && formed == "6395823456788"
    requires n0 == "6392623456789" && n1 == "6395823456789" && n3 == "6395823456787" && plus == "+" + n3
    requires format(local0, DefaultRegion) == Success("+" + n0)
    requires format(local1, DefaultRegion) == Success("+" + n1)
    requires format(plus, DefaultRegion) == Success(plus)
    ensures Normalize([local0, local1, formed, plus], format) == Normalized([n0, n1, formed, n3], None)
  {
    assert local0[0] == '0' && local1[0] == '0' && plus[0] == '+' && formed[..2] == "63";
    NormalizeShapes(format, local0, local1, formed, plus, n0, n1, n3);
  }

  /** The test vector's list, by the shapes of its entries. */
  lemma NormalizeShapes(format: PhoneFormatter, local0: string, local1: string, formed: string, plus: string,
                        n0: string, n1: string, n3: string)
    requires local0 != [] && local0[0] != '6' && local1 != [] && local1[0] != '6'
    requires plus != [] && plus[0] != '6' && plus == "+" + n3 && HasPrefix(formed, CountryPrefix)
    requires format(local0, DefaultRegion) == Success("+" + n0)
    requires format(local1, DefaultRegion) == Success("+" + n1)
    requires format(plus, DefaultRegion) == Success(plus)
    ensures Normalize([local0, local1, formed, plus], format) == Normalized([n0, n1, formed, n3], None)
  {
    NormalizeFormatted(local0, format, n0);
    NormalizeFormatted(local1, format, n1);
    NormalizeFormatted(plus, format, n3);
    NormalizeFour(local0, local1, formed, plus, format, n0, n1, formed, n3);
  }

  /** Four numbers that each normalise successfully. */
  lemma NormalizeFour(a: string, b: string, c: string, d: string, format: PhoneFormatter,
                      na: string, nb: string, nc: string, nd: string)
    requires NormalizeOne(a, format) == Success(na) && NormalizeOne(b, format) == Success(nb)
    requires NormalizeOne(c, format) == Success(nc) && NormalizeOne(d, format) == Success(nd)
    ensures Normalize([a, b, c, d], format) == Normalized([na, nb, nc, nd], None)
  {
    var phones, result := [a, b, c, d], [na, nb, nc, nd];
    assert forall i :: 0 <= i < 4 ==> NormalizeOne(phones[i], format) == Success(result[i]);
    NormalizeAll(phones, format, result);
  }

  /** A list whose entries all normalise successfully normalises to their values, without error. */
  lemma NormalizeAll(phones: seq<string>, format: PhoneFormatter, result: seq<string>)
    requires |result| == |phones|
    requires forall i :: 0 <= i < |phones| ==> NormalizeOne(phones[i], format) == Success(result[i])
    ensures Normalize(phones, format) == Normalized(result, None)
  {
    NormalizeSucceeds(phones, format);
    var r := Normalize(phones, format);
    assert forall i :: 0 <= i < |phones| ==> r.phones[i] == result[i];
  }

  /** A number that does not start with '6', which the library formats as "+" and `national`, becomes `national`. */
  lemma NormalizeFormatted(phone: string, format: PhoneFormatter, national: string)
    requires phone != [] && phone[0] != '6'
    requires format(phone, DefaultRegion) == Success("+" + national)
    ensures NormalizeOne(phone, format) == Success(national)
  {
    assert !HasPrefix(phone, CountryPrefix) by {
      if |phone| >= 2 {
        assert phone[..2][0] == phone[0];
      }
    }
    NormalizeParsed(phone, format, national);
  }

  /** A number without the "63" prefix that the library formats as "+" and `national` becomes `national`. */
  lemma NormalizeParsed(phone: string, format: PhoneFormatter, national: string)
    requires !HasPrefix(phone, CountryPrefix)
    requires format(phone, DefaultRegion) == Success("+" + national)
    ensures NormalizeOne(phone, format) == Success(national)
  {
    assert ("+" + national)[1..] == national;
  }

  /**
   * The normalisation of a list, given where it stops: the entries before
   * `i` normalise successfully and are replaced, entry `i` (if any) fails,
   * and from `i` on nothing changes.
   */
  lemma NormalizeStopsAt(phones: seq<string>, format: PhoneFormatter, result: seq<string>, i: nat)
    requires i <= |phones| == |result|
    requires forall k :: 0 <= k < i ==>
      NormalizeOne(phones[k], format).Success? && result[k] == NormalizeOne(phones[k], format).value
    requires result[i..] == phones[i..]
    requires i < |phones| ==> NormalizeOne(phones[i], format).Failure?
    ensures Normalize(phones, format).phones == result
    ensures Normalize(phones, format).err == if i < |phones| then Some(NormalizeOne(phones[i], format).error) else None
  {
    var r := Normalize(phones, format);
    if i < |phones| {
      NormalizeStopsAtFirstError(phones, format, i);
      assert forall k :: i <= k < |phones| ==> r.phones[k] == r.phones[i..][k - i];
      assert forall k :: i <= k < |phones| ==> result[k] == result[i..][k - i];
    } else {
      NormalizeSucceeds(phones, format);
    }
    assert forall k :: 0 <= k < |phones| ==> r.phones[k] == result[k];
  }

  /**
   * makeValidPhoneNumbers: rewrites the entries of `phones` in place, in
   * order, and returns the first parse error, leaving the later entries as
   * they were.
   */
  method MakeValidPhoneNumbers(phones: array<string>, format: PhoneFormatter) returns (err: Option<string>)
    modifies phones
    ensures phones[..] == Normalize(old(phones[..]), format).phones
    ensures err == Normalize(old(phones[..]), format).err
  {
    ghost var original := phones[..];
    var i := 0;
    while i < phones.Length
      invariant 0 <= i <= phones.Length
      invariant forall k :: i <= k < phones.Length ==> phones[k] == original[k]
      invariant forall k :: 0 <= k < i ==>
        NormalizeOne(original[k], format).Success? && phones[k] == NormalizeOne(original[k], format).value
    {
      var phone := phones[i];
      if HasPrefix(phone, CountryPrefix) {
        i := i + 1;
        continue;
      }
      match format(phone, DefaultRegion) {
        case Failure(e) =>
          assert phones[i..] == original[i..];
          NormalizeStopsAt(original, format, phones[..], i);
          return Some(e);
        case Success(e164) =>
          phones[i] := RemoveFirst(e164, '+');
      }
      i := i + 1;
    }
    NormalizeStopsAt(original, format, phones[..], i);
    return None;
  }
}
