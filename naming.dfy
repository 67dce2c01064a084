/**
 * The strings the views build from identities and keys: e-mail addresses,
 * meta-course ids and meta-course display names.
 */
module Naming {

  import opened Wrappers

  /** The institutional mail domain appended to every identity. */
  const MailDomain: string := "@ucmail.uc.edu"

  /** The contact address of an instructor: `identity + '@ucmail.uc.edu'`. */
  function Address(identity: string): string
  {
    identity + MailDomain
  }

  /** The identity behind an institutional address, if it is one. */
  function IdentityOf(address: string): (r: Option<string>)
    ensures r.Some? ==> Address(r.value) == address
  {
    if |address| >= |MailDomain| && address[|address| - |MailDomain|..] == MailDomain
    then Some(address[..|address| - |MailDomain|])
    else None
  }

  /** Reading the identity back out of an address gives the identity. */
  lemma IdentityOfAddress(identity: string)
    ensures IdentityOf(Address(identity)) == Some(identity)
  {
    var a := Address(identity);
    assert a[..|identity|] == identity;
    assert a[|identity|..] == MailDomain;
  }

  /** Two instructors never share an address. */
  lemma AddressInjective(a: string, b: string)
    requires Address(a) == Address(b)
    ensures a == b
  {
    IdentityOfAddress(a);
    IdentityOfAddress(b);
  }

  // ---------------------------------------------------------------------
  // Python's str() of a primary key.

  function Digit(d: nat): char
    requires d < 10
  {
    "0123456789"[d]
  }

  predicate IsDigit(c: char)
  {
    '0' <= c <= '9'
  }

  /** The decimal numeral of `n`, as `str(n)` writes it. */
  function DecimalString(n: nat): (r: string)
    ensures |r| >= 1
    ensures forall i :: 0 <= i < |r| ==> IsDigit(r[i])
    decreases n
  {
    if n < 10 then [Digit(n)] else DecimalString(n / 10) + [Digit(n % 10)]
  }

  /** The number a string of digits denotes. */
  function DecimalValue(s: string): nat
    requires forall i :: 0 <= i < |s| ==> IsDigit(s[i])
    decreases |s|
  {
    if s == [] then 0
    else
      var last := s[|s| - 1];
      assert IsDigit(last);
      DecimalValue(s[..|s| - 1]) * 10 + ((last as int) - ('0' as int))
  }

  /** `int(str(n)) == n`. */
  lemma {:induction false} DecimalRoundTrip(n: nat)
    ensures DecimalValue(DecimalString(n)) == n
    decreases n
  {
    var s := DecimalString(n);
    if n < 10 {
      assert s[..0] == [];
    } else {
      DecimalRoundTrip(n / 10);
      assert s[..|s| - 1] == DecimalString(n / 10);
    }
  }

  // ---------------------------------------------------------------------
  // Meta-course ids and names.

  /** The id a meta course has before it is first saved. */
  function TemporaryId(username: string): string
  {
    "meta_" + username + "_" + "temp"
  }

  /** The id a meta course gets once its primary key is known. */
  function MetaCourseId(username: string, pk: nat): string
  {
    "meta_" + username + "_" + DecimalString(pk)
  }

  /** The key can be read back from the id: two meta courses of one owner never share an id. */
  lemma MetaCourseIdInjective(username: string, pk1: nat, pk2: nat)
    requires MetaCourseId(username, pk1) == MetaCourseId(username, pk2)
    ensures pk1 == pk2
  {
    var n := |"meta_" + username + "_"|;
    assert MetaCourseId(username, pk1)[n..] == DecimalString(pk1);
    assert MetaCourseId(username, pk2)[n..] == DecimalString(pk2);
    DecimalRoundTrip(pk1);
    DecimalRoundTrip(pk2);
  }

  /** The temporary id is never the id of a saved meta course. */
  lemma TemporaryIdIsNotFinal(username: string, pk: nat)
    ensures TemporaryId(username) != MetaCourseId(username, pk)
  {
    var n := |"meta_" + username + "_"|;
    assert TemporaryId(username)[n] == 't';
    assert MetaCourseId(username, pk)[n] == DecimalString(pk)[0];
  }

  /** The name a meta course is first saved with: `base + ' (' + sections + ')'`. */
  function InitialName(base: string, sections: string): string
  {
    base + " (" + sections + ")"
  }

  /** The name after the term label is prepended: `'(Meta ' + term + ') ' + name`. */
  function TermPrefixedName(term: string, name: string): string
  {
    "(Meta " + term + ") " + name
  }
}
