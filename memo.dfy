/** The memo of an incoming transfer and how the offer reads it:
    whitespace is removed, then the text is split positionally on '-' into
    roll_under, seed_hash, expiration, an optional referrer and the
    signature, and the signed text is everything before the last '-'. */
module Memo {
  import opened Types

  /** The field separator. */
  const SEP: char := '-'

  /** The C-locale whitespace test: space, tab, newline, vertical tab, form feed, return. */
  predicate IsSpace(c: char): (r: bool)
    ensures r <==> c in [' ', '\t', '\n', '\U{000B}', '\U{000C}', '\r']
  {
    c == ' ' || 9 <= c as int <= 13
  }

  /** The memo with every whitespace character removed, the rest in order. */
  function RemoveSpaces(s: string): (r: string)
    ensures |r| <= |s|
    ensures forall i :: 0 <= i < |r| ==> !IsSpace(r[i])
    ensures (forall i :: 0 <= i < |s| ==> !IsSpace(s[i])) ==> r == s
  {
    if s == [] then []
    else
      assert s == [s[0]] + s[1..];
      (if IsSpace(s[0]) then [] else [s[0]]) + RemoveSpaces(s[1..])
  }

  /** The first index at or after `from` holding `c`, as `std::string::find`. */
  function Find(s: string, c: char, from: nat): (r: Option<nat>)
    decreases |s| - from
    ensures r.Some? ==> from <= r.value < |s| && s[r.value] == c
    ensures r.Some? ==> forall i :: from <= i < r.value ==> s[i] != c
    ensures r.None? ==> forall i :: from <= i < |s| ==> s[i] != c
  {
    if from >= |s| then None
    else if s[from] == c then Some(from)
    else Find(s, c, from + 1)
  }

  /** The last index holding `c`, as `std::string::find_last_of`. */
  function FindLast(s: string, c: char): (r: Option<nat>)
    ensures r.Some? ==> r.value < |s| && s[r.value] == c
    ensures r.Some? ==> forall i :: r.value < i < |s| ==> s[i] != c
    ensures r.None? ==> forall i :: 0 <= i < |s| ==> s[i] != c
  {
    if s == [] then None
    else if s[|s| - 1] == c then Some(|s| - 1)
    else FindLast(s[..|s| - 1], c)
  }

  /** How many times `c` occurs in `s`. */
  function Count(s: string, c: char): nat
  {
    if s == [] then 0 else (if s[0] == c then 1 else 0) + Count(s[1..], c)
  }

  lemma {:induction false} CountAppend(a: string, b: string, c: char)
    ensures Count(a + b, c) == Count(a, c) + Count(b, c)
  {
    if a != [] {
      assert (a + b)[1..] == a[1..] + b;
      CountAppend(a[1..], b, c);
    } else {
      assert a + b == b;
    }
  }

  lemma {:induction false} CountAbsent(s: string, c: char)
    ensures Count(s, c) == 0 <==> c !in s
  {
    if s != [] {
      assert s == [s[0]] + s[1..];
      CountAbsent(s[1..], c);
    }
  }

  /** A field read up to the next separator, and the text after that separator. */
  datatype Field = Field(text: string, rest: string)

  /** Reads the field at the cursor up to the next separator, which must
      exist, and moves the cursor past it. */
  function Sub2Sepa(t: string): (r: Result<Field>)
    ensures r.Ok? ==> t == r.value.text + [SEP] + r.value.rest && SEP !in r.value.text
    ensures r.Err? <==> SEP !in t
    ensures r.Err? ==> r.error == MissingSeparator
  {
    match Find(t, SEP, 0)
    case None => Err(MissingSeparator)
    case Some(p) =>
      assert t == t[..p] + [SEP] + t[p + 1..];
      Ok(Field(t[..p], t[p + 1..]))
  }

  /** A field followed by a separator is read whole. */
  lemma Sub2SepaReads(field: string, rest: string)
    requires SEP !in field
    ensures Sub2Sepa(field + [SEP] + rest) == Ok(Field(field, rest))
  {
    var t := field + [SEP] + rest;
    assert t[|field|] == SEP;
    assert forall i :: 0 <= i < |field| ==> t[i] == field[i];
    assert t[..|field|] == field && t[|field| + 1..] == rest;
  }

  /** A read consumes exactly one separator. */
  lemma Sub2SepaCount(t: string)
    ensures Sub2Sepa(t).Err? <==> Count(t, SEP) == 0
    ensures Sub2Sepa(t).Ok? ==> Count(t, SEP) == 1 + Count(Sub2Sepa(t).value.rest, SEP)
  {
    CountAbsent(t, SEP);
    match Sub2Sepa(t)
    case Err(_) =>
    case Ok(r) =>
      CountAppend(r.text + [SEP], r.rest, SEP);
      CountAppend(r.text, [SEP], SEP);
      CountAbsent(r.text, SEP);
  }

  /** The fields of a memo, as text. An absent referrer and a present but
      empty one are told apart here; the offer treats both as "no referrer". */
  datatype MemoFields = MemoFields(
    rollUnder: string,
    seedHash: string,
    expiration: string,
    referrer: Option<string>,
    signature: string)

  /** Splits a whitespace-free memo as the offer does: three required
      fields, a referrer only when another separator follows, and the rest
      as the signature, which must not be empty. */
  function ParseMemo(s: string): (r: Result<MemoFields>)
    ensures r.Err? ==> r.error == MissingSeparator || r.error == NoSignature
  {
    var rollUnder :- Sub2Sepa(s);
    var seedHash :- Sub2Sepa(rollUnder.rest);
    var expiration :- Sub2Sepa(seedHash.rest);
    var referrer: Option<Field> :=
      if SEP in expiration.rest then Some(Sub2Sepa(expiration.rest).value) else None;
    var signature := if referrer.Some? then referrer.value.rest else expiration.rest;
    if signature == [] then Err(NoSignature)
    else
      Ok(MemoFields(rollUnder.text, seedHash.text, expiration.text,
                    if referrer.Some? then Some(referrer.value.text) else None, signature))
  }

  /** The text before the last separator, which the signature signs. With
      no separator at all it is the whole memo. */
  function SignedText(s: string): (r: string)
    ensures |r| <= |s| && r == s[..|r|]
    ensures |r| < |s| ==> s[|r|] == SEP && forall i :: |r| < i < |s| ==> s[i] != SEP
    ensures |r| == |s| ==> SEP !in s
  {
    match FindLast(s, SEP)
    case None => s
    case Some(p) => s[..p]
  }

  /** What follows the expiration's separator in a memo. */
  function ComposeTail(f: MemoFields): string {
    match f.referrer
    case Some(x) => x + [SEP] + f.signature
    case None => f.signature
  }

  /** The memo text these fields are read from. */
  function Compose(f: MemoFields): string {
    f.rollUnder + [SEP] + (f.seedHash + [SEP] + (f.expiration + [SEP] + ComposeTail(f)))
  }

  /** The part of a memo a signature covers: everything up to and including
      the expiration, or the referrer when there is one. */
  function SignedPart(f: MemoFields): string {
    f.rollUnder + [SEP] + f.seedHash + [SEP] + f.expiration
      + (match f.referrer case Some(x) => [SEP] + x case None => [])
  }

  /** Fields that `ParseMemo` can return: no separator inside a field, a
      non-empty signature, and, without a referrer, no separator in the
      signature either (it would make the signature's head the referrer). */
  predicate WellFormedFields(f: MemoFields) {
    && SEP !in f.rollUnder && SEP !in f.seedHash && SEP !in f.expiration
    && (f.referrer.Some? ==> SEP !in f.referrer.value)
    && (f.referrer.None? ==> SEP !in f.signature)
    && f.signature != []
  }

  /** Every memo the parser accepts is the composition of well-formed fields. */
  lemma ParseMemoSound(s: string)
    requires ParseMemo(s).Ok?
    ensures WellFormedFields(ParseMemo(s).value)
    ensures Compose(ParseMemo(s).value) == s
  {
    var f := ParseMemo(s).value;
    var a := Sub2Sepa(s).value;
    var b := Sub2Sepa(a.rest).value;
    var e := Sub2Sepa(b.rest).value;
    assert f.rollUnder == a.text && f.seedHash == b.text && f.expiration == e.text;
    if SEP in e.rest {
      var r := Sub2Sepa(e.rest).value;
      assert f.referrer == Some(r.text) && f.signature == r.rest;
    } else {
      assert f.referrer == None && f.signature == e.rest;
    }
    assert e.rest == ComposeTail(f);
  }

  /** Well-formed fields are read back exactly from the memo they compose. */
  lemma ParseCompose(f: MemoFields)
    requires WellFormedFields(f)
    ensures ParseMemo(Compose(f)) == Ok(f)
  {
    var tail := ComposeTail(f);
    var afterSeed := f.expiration + [SEP] + tail;
    var afterRoll := f.seedHash + [SEP] + afterSeed;
    Sub2SepaReads(f.rollUnder, afterRoll);
    Sub2SepaReads(f.seedHash, afterSeed);
    Sub2SepaReads(f.expiration, tail);
    match f.referrer
    case Some(x) =>
      Sub2SepaReads(x, f.signature);
      assert SEP in tail by {
        assert tail[|x|] == SEP;
      }
    case None =>
  }

  /** The memo lacks a required separator exactly when it holds fewer than three. */
  lemma ParseMemoMissingSeparator(s: string)
    ensures ParseMemo(s) == Err(MissingSeparator) <==> Count(s, SEP) < 3
  {
    Sub2SepaCount(s);
    if Sub2Sepa(s).Err? {
      assert ParseMemo(s) == Err(MissingSeparator);
    } else {
      var a := Sub2Sepa(s).value;
      Sub2SepaCount(a.rest);
      if Sub2Sepa(a.rest).Err? {
        assert ParseMemo(s) == Err(MissingSeparator);
      } else {
        var b := Sub2Sepa(a.rest).value;
        Sub2SepaCount(b.rest);
        if Sub2Sepa(b.rest).Err? {
          assert ParseMemo(s) == Err(MissingSeparator);
        } else {
          assert ParseMemo(s).Ok? || ParseMemo(s) == Err(NoSignature);
        }
      }
    }
  }

  /** A composed memo is its signed part, a separator, and the signature. */
  lemma ComposeSplitsAtSignature(f: MemoFields)
    ensures Compose(f) == SignedPart(f) + [SEP] + f.signature
  {
    match f.referrer
    case Some(x) =>
    case None =>
  }

  /** Without a separator in the signature, the signed text is exactly the
      part before the signature. */
  lemma SignedTextOfCompose(f: MemoFields)
    requires SEP !in f.signature
    ensures SignedText(Compose(f)) == SignedPart(f)
  {
    var s, part := Compose(f), SignedPart(f);
    ComposeSplitsAtSignature(f);
    var r := SignedText(s);
    assert s[|part|] == SEP;
    forall i | |part| < i < |s| ensures s[i] != SEP {
      assert s[i] == f.signature[i - |part| - 1];
    }
    assert |r| == |part|;
  }

  /** Whitespace removal keeps every other character's count, the separator's included. */
  lemma {:induction false} RemoveSpacesCount(s: string, c: char)
    requires !IsSpace(c)
    ensures Count(RemoveSpaces(s), c) == Count(s, c)
  {
    if s != [] {
      var head := if IsSpace(s[0]) then [] else [s[0]];
      RemoveSpacesCount(s[1..], c);
      CountAppend(head, RemoveSpaces(s[1..]), c);
    }
  }

  /** Removal works piecewise: the kept characters of a concatenation are
      those of each part, in order. */
  lemma {:induction false} RemoveSpacesAppend(a: string, b: string)
    ensures RemoveSpaces(a + b) == RemoveSpaces(a) + RemoveSpaces(b)
  {
    if a == [] {
      assert a + b == b;
    } else {
      var head := if IsSpace(a[0]) then [] else [a[0]];
      assert (a + b)[0] == a[0] && (a + b)[1..] == a[1..] + b;
      assert RemoveSpaces(a + b) == head + RemoveSpaces(a[1..] + b);
      RemoveSpacesAppend(a[1..], b);
    }
  }

  /** A run of whitespace is removed entirely. */
  lemma {:induction false} RemoveSpacesOfSpaces(w: string)
    requires forall i :: 0 <= i < |w| ==> IsSpace(w[i])
    ensures RemoveSpaces(w) == []
  {
    if w != [] {
      RemoveSpacesOfSpaces(w[1..]);
    }
  }

  /** Inserting a run of whitespace anywhere leaves the result unchanged. */
  lemma RemoveSpacesInserted(a: string, w: string, b: string)
    requires forall i :: 0 <= i < |w| ==> IsSpace(w[i])
    ensures RemoveSpaces(a + w + b) == RemoveSpaces(a + b)
  {
    var ra, rw, rb := RemoveSpaces(a), RemoveSpaces(w), RemoveSpaces(b);
    RemoveSpacesOfSpaces(w);
    RemoveSpacesAppend(a, w);
    assert RemoveSpaces(a + w) == ra by {
      assert ra + rw == ra;
    }
    RemoveSpacesAppend(a + w, b);
    RemoveSpacesAppend(a, b);
  }

  /** A C string ends at its first NUL, whatever follows. */
  lemma {:induction false} CStringStopsAtNul(p: string, q: string)
    requires '\0' in p
    ensures CString(p + q) == CString(p)
  {
    if p[0] != '\0' {
      assert '\0' in p[1..] by {
        var i :| 0 <= i < |p| && p[i] == '\0';
        assert p[1..][i - 1] == '\0';
      }
      assert (p + q)[1..] == p[1..] + q;
      CStringStopsAtNul(p[1..], q);
    }
  }

  /** Without NUL characters in its fields, the digest of a composed memo's
      signed text covers exactly the fields before the signature, the
      referrer included. */
  lemma SignedDigestCoversFields(f: MemoFields)
    requires SEP !in f.signature && '\0' !in SignedPart(f)
    ensures CString(SignedText(Compose(f))) == SignedPart(f)
  {
    SignedTextOfCompose(f);
  }

  /** A NUL inside the expiration field ends the text the signature is
      checked against, so a referrer appended after it is not covered: the
      digest is the same as for the memo without that referrer. */
  lemma NulHidesReferrer(f: MemoFields)
    requires f.referrer.Some? && SEP !in f.signature && '\0' in f.expiration
    ensures CString(SignedText(Compose(f))) == CString(SignedText(Compose(f.(referrer := None))))
  {
    var head := f.rollUnder + [SEP] + f.seedHash + [SEP] + f.expiration;
    assert '\0' in head by {
      var i :| 0 <= i < |f.expiration| && f.expiration[i] == '\0';
      assert head[|f.rollUnder| + |f.seedHash| + 2 + i] == '\0';
    }
    SignedTextOfCompose(f);
    SignedTextOfCompose(f.(referrer := None));
    assert SignedPart(f) == head + ([SEP] + f.referrer.value);
    assert SignedPart(f.(referrer := None)) == head + [];
    CStringStopsAtNul(head, [SEP] + f.referrer.value);
    CStringStopsAtNul(head, []);
  }
}
