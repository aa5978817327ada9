/**
 What the signed texts determine. Fields are joined with `|` and nothing escapes
 it, so everything hangs on which fields can hold that character: agent ids and
 nonces are base64 (section 4 of RFC 4648) and times are numbers, and none can.
 */
module SigningBytes {
  import opened Decimal
  import opened Trust
  import Utf8

  predicate BarFree(s: string) { '|' !in s }

  predicate IsBase64(s: string) {
    forall i :: 0 <= i < |s| ==>
      'A' <= s[i] <= 'Z' || 'a' <= s[i] <= 'z' || '0' <= s[i] <= '9' || s[i] == '+' || s[i] == '/' || s[i] == '='
  }

  lemma Base64IsBarFree(s: string)
    requires IsBase64(s)
    ensures BarFree(s)
  {
  }

  lemma TimesAreBarFree(t: Time)
    ensures BarFree(PrintInt(t))
  {
  }

  lemma SplitFirst(head: string, tail: string, head': string, tail': string)
    requires BarFree(head) && BarFree(head')
    requires head + "|" + tail == head' + "|" + tail'
    ensures head == head' && tail == tail'
  {
    var s, t := head + "|" + tail, head' + "|" + tail';
    assert s[|head|] == '|' && t[|head'|] == '|';
    assert forall i :: 0 <= i < |head| ==> s[i] == head[i];
    assert forall i :: 0 <= i < |head'| ==> t[i] == head'[i];
    assert |head| == |head'|;
    assert head == s[..|head|] && head' == t[..|head|];
    assert tail == s[|head| + 1..] && tail' == t[|head| + 1..];
  }

  lemma SplitLast(head: string, tail: string, head': string, tail': string)
    requires BarFree(tail) && BarFree(tail')
    requires head + "|" + tail == head' + "|" + tail'
    ensures head == head' && tail == tail'
  {
    var s, t := head + "|" + tail, head' + "|" + tail';
    assert s[|head|] == '|' && t[|head'|] == '|';
    assert forall k :: |head| < k < |s| ==> s[k] == tail[k - |head| - 1];
    assert forall k :: |head'| < k < |t| ==> t[k] == tail'[k - |head'| - 1];
    assert |head| == |head'|;
    assert head == s[..|head|] && head' == t[..|head|];
    assert tail == s[|head| + 1..] && tail' == t[|head| + 1..];
  }

  // ---- exactly when two signed texts are the same bytes ----

  lemma CancelFirst(head: string, tail: string, tail': string)
    requires head + tail == head + tail'
    ensures tail == tail'
  {
    assert tail == (head + tail)[|head|..] && tail' == (head + tail')[|head|..];
  }

  lemma VouchBytesEqualIff(i: string, s: string, t: Time, e: Time, i': string, s': string, t': Time, e': Time)
    ensures VouchSigningBytes(i, s, t, e) == VouchSigningBytes(i', s', t', e')
            <==> i + "|" + s == i' + "|" + s' && t == t' && e == e'
  {
    if VouchSigningBytes(i, s, t, e) == VouchSigningBytes(i', s', t', e') {
      Utf8.EncodeInjective(VouchText(i, s, t, e), VouchText(i', s', t', e'));
      TimesAreBarFree(t);
      TimesAreBarFree(e);
      TimesAreBarFree(t');
      TimesAreBarFree(e');
      SplitLast(i + "|" + s + "|" + PrintInt(t), PrintInt(e), i' + "|" + s' + "|" + PrintInt(t'), PrintInt(e'));
      SplitLast(i + "|" + s, PrintInt(t), i' + "|" + s', PrintInt(t'));
      PrintIntInjective(t, t');
      PrintIntInjective(e, e');
    }
  }

  lemma RevokeBytesEqualIff(i: string, s: string, t: Time, i': string, s': string, t': Time)
    ensures RevokeSigningBytes(i, s, t) == RevokeSigningBytes(i', s', t')
            <==> i + "|" + s == i' + "|" + s' && t == t'
  {
    if RevokeSigningBytes(i, s, t) == RevokeSigningBytes(i', s', t') {
      Utf8.EncodeInjective(RevokeText(i, s, t), RevokeText(i', s', t'));
      TimesAreBarFree(t);
      TimesAreBarFree(t');
      SplitLast(i + "|" + s, PrintInt(t), i' + "|" + s', PrintInt(t'));
      PrintIntInjective(t, t');
    }
  }

  /** A vouch is signed over the bytes of a revocation of the text `s|t`, revoked when the vouch expires. */
  lemma VouchReadsAsRevoke(i: string, s: string, t: Time, e: Time)
    ensures VouchSigningBytes(i, s, t, e) == RevokeSigningBytes(i, s + "|" + PrintInt(t), e)
  {
    assert i + "|" + s + "|" + PrintInt(t) == i + "|" + (s + "|" + PrintInt(t));
  }

  // ---- what the bytes fix, the issuer being known or bar-free ----

  /** Signatures are checked against a named issuer's key, or the issuers are ids and hold no bar. */
  predicate IssuersComparable(i: string, i': string) { i == i' || (BarFree(i) && BarFree(i')) }

  lemma IssuerAndSubject(i: string, s: string, i': string, s': string)
    requires IssuersComparable(i, i') && i + "|" + s == i' + "|" + s'
    ensures i == i' && s == s'
  {
    if i == i' {
      CancelFirst(i + "|", s, s');
    } else {
      SplitFirst(i, s, i', s');
    }
  }

  /** A vouch's signed bytes fix all its fields, whatever characters the subject holds. */
  lemma VouchBytesInjective(i: string, s: string, t: Time, e: Time, i': string, s': string, t': Time, e': Time)
    requires IssuersComparable(i, i')
    requires VouchSigningBytes(i, s, t, e) == VouchSigningBytes(i', s', t', e')
    ensures i == i' && s == s' && t == t' && e == e'
  {
    VouchBytesEqualIff(i, s, t, e, i', s', t', e');
    IssuerAndSubject(i, s, i', s');
  }

  lemma RevokeBytesInjective(i: string, s: string, t: Time, i': string, s': string, t': Time)
    requires IssuersComparable(i, i')
    requires RevokeSigningBytes(i, s, t) == RevokeSigningBytes(i', s', t')
    ensures i == i' && s == s' && t == t'
  {
    RevokeBytesEqualIff(i, s, t, i', s', t');
    IssuerAndSubject(i, s, i', s');
  }

  /**
   Exactly when a vouch and a revocation are signed over the same bytes: the
   revocation names, as its subject, the vouch's subject, a bar and the vouch's
   issue time. A subject that is an agent id never has that form.
   */
  lemma VouchRevokeCollision(i: string, s: string, t: Time, e: Time, i': string, s': string, t': Time)
    requires IssuersComparable(i, i')
    ensures VouchSigningBytes(i, s, t, e) == RevokeSigningBytes(i', s', t')
            <==> i == i' && s' == s + "|" + PrintInt(t) && e == t'
    ensures BarFree(s') ==> VouchSigningBytes(i, s, t, e) != RevokeSigningBytes(i', s', t')
  {
    VouchReadsAsRevoke(i, s, t, e);
    var subject := s + "|" + PrintInt(t);
    if RevokeSigningBytes(i, subject, e) == RevokeSigningBytes(i', s', t') {
      RevokeBytesInjective(i, subject, e, i', s', t');
    }
    assert subject[|s|] == '|';
  }

  /** A vouch and a revocation of the same issuer that share their signed bytes. */
  lemma VouchRevokeCollisionExample()
    ensures VouchSigningBytes("A", "B", 5, 9) == RevokeSigningBytes("A", "B|5", 9)
  {
    assert PrintInt(5) == "5";
    VouchRevokeCollision("A", "B", 5, 9, "A", "B|5", 9);
  }

  /** A nonce is signed over the bytes of a vouch or a revocation exactly if it is their text, letter for letter. */
  lemma NonceCollision(nonce: string, i: string, s: string, t: Time, e: Time)
    ensures Utf8.Encode(nonce) == VouchSigningBytes(i, s, t, e) <==> nonce == VouchText(i, s, t, e)
    ensures Utf8.Encode(nonce) == RevokeSigningBytes(i, s, t) <==> nonce == RevokeText(i, s, t)
  {
    if Utf8.Encode(nonce) == VouchSigningBytes(i, s, t, e) {
      Utf8.EncodeInjective(nonce, VouchText(i, s, t, e));
    }
    if Utf8.Encode(nonce) == RevokeSigningBytes(i, s, t) {
      Utf8.EncodeInjective(nonce, RevokeText(i, s, t));
    }
  }

  /** A nonce without a bar, such as every base64 nonce, is signed over bytes of neither kind. */
  lemma NonceIsNeither(nonce: string, i: string, s: string, t: Time, e: Time)
    requires BarFree(nonce)
    ensures Utf8.Encode(nonce) != VouchSigningBytes(i, s, t, e)
    ensures Utf8.Encode(nonce) != RevokeSigningBytes(i, s, t)
  {
    NonceCollision(nonce, i, s, t, e);
    assert VouchText(i, s, t, e)[|i|] == '|';
    assert RevokeText(i, s, t)[|i|] == '|';
  }
}
