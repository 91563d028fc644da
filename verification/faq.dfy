/** The scripted FAQ matcher of the chat widget: a question is normalised
    (lower-cased, then trimmed), looked up as an exact key, then scanned for
    the first key it contains, and otherwise answered with a fallback. */
module Faq {
  import opened Opt
  import opened Text

  /** Entries `(key, answer)` in declaration order. */
  type Table = seq<(string, string)>

  /** A JavaScript object literal cannot hold the same key twice. */
  predicate DistinctKeys(table: Table) {
    forall i, j :: 0 <= i < j < |table| ==> table[i].0 != table[j].0
  }

  /** `question.toLowerCase().trim()`. */
  function Normalize(question: string): string {
    Trim(ToLower(question))
  }

  /** Normalising an already normalised question changes nothing. */
  lemma NormalizeIdempotent(question: string)
    ensures Normalize(Normalize(question)) == Normalize(question)
  {
    var lowered := ToLower(question);
    var n := Trim(lowered);
    TrimKeepsNoUpper(lowered);
    ToLowerFixesLowercase(n);
    TrimIdempotent(lowered);
  }

  /** The index of the entry whose key is `key`, if any. */
  function KeyIndex(table: Table, key: string): (r: Option<nat>)
    ensures r.Some? ==> r.value < |table| && table[r.value].0 == key
    ensures r.None? ==> forall j :: 0 <= j < |table| ==> table[j].0 != key
  {
    if |table| == 0 then None
    else if table[0].0 == key then Some(0)
    else match KeyIndex(table[1..], key)
      case None => None
      case Some(j) => Some(j + 1)
  }

  /** The index of the first entry, in declaration order, whose key occurs
      in `text`. */
  function FirstContained(table: Table, text: string): (r: Option<nat>)
    ensures r.Some? ==> r.value < |table| && Contains(text, table[r.value].0)
    ensures r.Some? ==> forall j :: 0 <= j < r.value ==> !Contains(text, table[j].0)
    ensures r.None? ==> forall j :: 0 <= j < |table| ==> !Contains(text, table[j].0)
  {
    if |table| == 0 then None
    else if Contains(text, table[0].0) then Some(0)
    else match FirstContained(table[1..], text)
      case None => None
      case Some(j) => Some(j + 1)
  }

  /** The exact lookup succeeds: `text` is a key and its answer is truthy
      (a non-empty string). */
  predicate ExactHit(table: Table, text: string) {
    exists i :: 0 <= i < |table| && table[i].0 == text && table[i].1 != ""
  }

  /** `getResponse`, for any table and fallback. The answer is always one of
      the table's answers or the fallback. */
  function Respond(table: Table, fallback: string, question: string): (r: string)
    ensures r == fallback || exists i :: 0 <= i < |table| && r == table[i].1
  {
    var n := Normalize(question);
    var exact := KeyIndex(table, n);
    if exact.Some? && table[exact.value].1 != "" then table[exact.value].1
    else match FirstContained(table, n)
      case Some(i) => table[i].1
      case None => fallback
  }

  /** The answer depends on the question only through its normal form. */
  lemma RespondNormalized(table: Table, fallback: string, question: string)
    ensures Respond(table, fallback, Normalize(question)) == Respond(table, fallback, question)
  {
    NormalizeIdempotent(question);
  }

  /** An exact key match wins, even over an earlier key that also occurs in
      the question. */
  lemma RespondExact(table: Table, fallback: string, question: string, i: nat)
    requires DistinctKeys(table)
    requires i < |table| && Normalize(question) == table[i].0 && table[i].1 != ""
    ensures Respond(table, fallback, question) == table[i].1
  {
    var k := KeyIndex(table, table[i].0);
    assert k.Some? && k.value == i;
  }

  /** Without an exact hit, the first key in declaration order that occurs in
      the normalised question decides the answer. */
  lemma RespondFirstContained(table: Table, fallback: string, question: string, i: nat)
    requires !ExactHit(table, Normalize(question))
    requires i < |table| && Contains(Normalize(question), table[i].0)
    requires forall j :: 0 <= j < i ==> !Contains(Normalize(question), table[j].0)
    ensures Respond(table, fallback, question) == table[i].1
  {
    var n := Normalize(question);
    var f := FirstContained(table, n);
    assert f.Some? && f.value == i;
  }

  /** The fallback is given exactly when no key occurs in the normalised
      question, provided no entry's answer is the fallback itself. */
  lemma RespondFallback(table: Table, fallback: string, question: string)
    requires forall j :: 0 <= j < |table| ==> table[j].1 != fallback
    ensures Respond(table, fallback, question) == fallback
        <==> forall j :: 0 <= j < |table| ==> !Contains(Normalize(question), table[j].0)
  {
    var n := Normalize(question);
    var r := Respond(table, fallback, question);
    var k := KeyIndex(table, n);
    var f := FirstContained(table, n);
    if k.Some? {
      ContainsSelf(n);
      assert Contains(n, table[k.value].0);
      assert f.Some?;
    }
    if f.Some? {
      assert r != fallback;
    } else {
      assert r == fallback;
    }
  }

  const SellKey := "how do i sell my license"
  const PriceKey := "how much can i get for my license"
  const DurationKey := "how long does the process take"
  const VendorsKey := "what types of licenses do you buy"
  const LegalKey := "is this legal"

  const SellAnswer :=
    "To sell your license, click on the 'Sell My Licenses' button at the top of our website, upload your license details, and our team will provide you with a valuation within 24 hours."
  const PriceAnswer :=
    "The value of your license depends on several factors including the software type, remaining license duration, and current market demand. We typically offer 30-70% of the original price for unused licenses."
  const DurationAnswer :=
    "Our process is quick - you'll receive a valuation within 24 hours of submission and payment within 3 business days after accepting our offer."
  const VendorsAnswer :=
    "We purchase licenses for major software providers including Microsoft, Adobe, Oracle, SAP, Autodesk, and many others. Contact us for specific information about your license."
  const LegalAnswer :=
    "Yes, our process is 100% legal. We ensure all transfers comply with the license agreements and relevant laws governing software license transfers."

  /** The widget's five entries, in declaration order. */
  const FaqTable: Table := [
    (SellKey, SellAnswer),
    (PriceKey, PriceAnswer),
    (DurationKey, DurationAnswer),
    (VendorsKey, VendorsAnswer),
    (LegalKey, LegalAnswer)
  ]

  const Fallback :=
    "I don't have specific information about that. For the fastest assistance, please fill out our contact form and our team will get back to you shortly. You can also try asking about how to sell licenses, pricing, or our process."

  /** The widget's `getResponse`. */
  function GetResponse(question: string): string {
    Respond(FaqTable, Fallback, question)
  }

  /** Every reply is one of the five answers or the fallback. */
  lemma GetResponseRange(question: string)
    ensures GetResponse(question)
      in {SellAnswer, PriceAnswer, DurationAnswer, VendorsAnswer, LegalAnswer, Fallback}
  {
    var r := GetResponse(question);
    if r != Fallback {
      var i :| 0 <= i < |FaqTable| && r == FaqTable[i].1;
      assert i == 0 || i == 1 || i == 2 || i == 3 || i == 4;
    }
  }

  /** The table is a well-formed object literal and no answer is the
      fallback or empty, so the generic lemmas apply in full. */
  lemma FaqTableWellFormed()
    ensures DistinctKeys(FaqTable)
    ensures forall j :: 0 <= j < |FaqTable| ==> FaqTable[j].1 != Fallback && FaqTable[j].1 != ""
  {
  }

  /** A question with no upper-case letter and no whitespace at its ends is
      already in normal form. */
  lemma NormalFormFixed(q: string)
    requires NoUpper(q) && q != [] && !IsSpace(q[0]) && !IsSpace(q[|q| - 1])
    ensures Normalize(q) == q
  {
    ToLowerFixesLowercase(q);
    TrimFixesTrimmed(q);
  }

  /** `"IS THIS LEGAL"` is the last key once normalised, so it gets the
      compliance answer by exact match. */
  lemma IsThisLegalExample()
    ensures GetResponse("IS THIS LEGAL") == LegalAnswer
  {
    NormalizeIsThisLegal();
    FaqTableWellFormed();
    RespondExact(FaqTable, Fallback, "IS THIS LEGAL", 4);
  }

  lemma NormalizeIsThisLegal()
    ensures Normalize("IS THIS LEGAL") == LegalKey
  {
    LowerIsThisLegal();
    TrimFixesTrimmed(LegalKey);
  }

  lemma LowerIsThisLegal()
    ensures ToLower("IS THIS LEGAL") == LegalKey
  {
    var lowered := ToLower("IS THIS LEGAL");
    forall i | 0 <= i < |lowered| ensures lowered[i] == LegalKey[i] {
      assert lowered[i] == LowerChar("IS THIS LEGAL"[i]);
    }
  }

  /** The table's keys, in order, and its size. */
  lemma FaqKeys()
    ensures |FaqTable| == 5
    ensures FaqTable[0].0 == SellKey && FaqTable[1].0 == PriceKey && FaqTable[2].0 == DurationKey
    ensures FaqTable[3].0 == VendorsKey && FaqTable[4].0 == LegalKey
  {
  }

  /** A question that embeds the second key, but not the first, gets the
      valuation answer by substring match. */
  lemma EmbeddedQuestionExample()
    ensures GetResponse("tell me " + PriceKey + " please") == PriceAnswer
  {
    var q := "tell me " + PriceKey + " please";
    EmbeddedQuestionMatches(q);
    FaqKeys();
    EmbeddedQuestionNoExactHit(q);
    RespondFirstContained(FaqTable, Fallback, q, 1);
  }

  lemma EmbeddedQuestionNoExactHit(q: string)
    requires |q| == 48
    ensures !ExactHit(FaqTable, q)
  {
  }

  lemma EmbeddedQuestionMatches(q: string)
    requires q == "tell me " + PriceKey + " please"
    ensures Normalize(q) == q && |q| == 48
    ensures !Contains(q, SellKey) && Contains(q, PriceKey)
  {
    PriceKeyChars();
    NoUpperConcat("tell me ", PriceKey);
    NoUpperConcat("tell me " + PriceKey, " please");
    assert q[0] == 't' && q[|q| - 1] == 'e';
    NormalFormFixed(q);
    assert SellKey[4] == 'd';
    assert 'd' !in q;
    MissingCharNotContained(q, SellKey, 4);
    assert q[8..8 + |PriceKey|] == PriceKey;
    assert OccursAt(q, PriceKey, 8);
  }

  /** The second key has no capital and no `d`. */
  lemma PriceKeyChars()
    ensures NoUpper(PriceKey) && 'd' !in PriceKey && |PriceKey| == 33
  {
    var a, b, c := "how much can", " i get for m", "y license";
    assert PriceKey == a + b + c;
    NoUpperConcat(a, b);
    NoUpperConcat(a + b, c);
    NoLetterD(a, b, c);
  }

  lemma NoLetterD(a: string, b: string, c: string)
    requires a == "how much can" && b == " i get for m" && c == "y license"
    ensures 'd' !in a + b + c
  {
  }

  /** A question mentioning none of the keys gets the fallback. */
  lemma UnrelatedQuestionExample()
    ensures GetResponse("what's the weather") == Fallback
  {
    var q := "what's the weather";
    UnrelatedQuestionMatchesNothing(q);
    NoKeyContained(q);
    FaqTableWellFormed();
    RespondFallback(FaqTable, Fallback, q);
  }

  lemma NoKeyContained(q: string)
    requires Normalize(q) == q
    requires !Contains(q, SellKey) && !Contains(q, PriceKey) && !Contains(q, DurationKey)
    requires !Contains(q, VendorsKey) && !Contains(q, LegalKey)
    ensures forall j :: 0 <= j < |FaqTable| ==> !Contains(Normalize(q), FaqTable[j].0)
  {
    FaqKeys();
  }

  lemma UnrelatedQuestionMatchesNothing(q: string)
    requires q == "what's the weather"
    ensures Normalize(q) == q
    ensures !Contains(q, SellKey) && !Contains(q, PriceKey) && !Contains(q, DurationKey)
    ensures !Contains(q, VendorsKey) && !Contains(q, LegalKey)
  {
    UnrelatedQuestionChars(q);
    NormalFormFixed(q);
    assert SellKey[4] == 'd' && PriceKey[4] == 'm' && DurationKey[4] == 'l';
    assert VendorsKey[6] == 'y' && LegalKey[0] == 'i';
    MissingCharNotContained(q, SellKey, 4);
    MissingCharNotContained(q, PriceKey, 4);
    MissingCharNotContained(q, DurationKey, 4);
    MissingCharNotContained(q, VendorsKey, 6);
    MissingCharNotContained(q, LegalKey, 0);
  }

  lemma UnrelatedQuestionChars(q: string)
    requires q == "what's the weather"
    ensures NoUpper(q) && q[0] == 'w' && q[|q| - 1] == 'r'
    ensures 'd' !in q && 'm' !in q && 'l' !in q && 'y' !in q && 'i' !in q
  {
    var a, b, c := "what's", " the w", "eather";
    assert q == a + b + c;
    NoUpperConcat(a, b);
    NoUpperConcat(a + b, c);
    LettersMissing(a, b, c);
  }

  /** None of the three pieces holds a `d`, `m`, `l`, `y` or `i`. */
  lemma LettersMissing(a: string, b: string, c: string)
    requires a == "what's" && b == " the w" && c == "eather"
    ensures forall x :: x in "dmlyi" ==> x !in a + b + c
  {
  }

  /** The example question shown under the input box, with capitals and a
      question mark, still reaches the first answer. */
  lemma SuggestedQuestionExample()
    ensures GetResponse("How do I sell my license?") == SellAnswer
  {
    var q := "How do I sell my license?";
    SuggestedQuestionMatches(q);
    FaqKeys();
    RespondFirstContained(FaqTable, Fallback, q, 0);
  }

  lemma SuggestedQuestionMatches(q: string)
    requires q == "How do I sell my license?"
    ensures Normalize(q) == SellKey + "?"
    ensures !ExactHit(FaqTable, Normalize(q)) && Contains(Normalize(q), SellKey)
  {
    SuggestedQuestionNormalized(q);
    assert OccursAt(SellKey + "?", SellKey, 0);
  }

  lemma SuggestedQuestionNormalized(q: string)
    requires q == "How do I sell my license?"
    ensures Normalize(q) == SellKey + "?"
  {
    SuggestedQuestionLowered(q);
    TrimFixesTrimmed(SellKey + "?");
  }

  lemma SuggestedQuestionLowered(q: string)
    requires q == "How do I sell my license?"
    ensures ToLower(q) == SellKey + "?"
  {
    var a, b := "How do I sell", " my license?";
    assert q == a + b;
    assert SellKey + "?" == "how do i sell" + b;
    ToLowerConcat(a, b);
    LowerHowDoISell(a);
    LowerCaseTail(b);
  }

  lemma LowerHowDoISell(a: string)
    requires a == "How do I sell"
    ensures ToLower(a) == "how do i sell"
  {
    var l := ToLower(a);
    forall i | 0 <= i < |l| ensures l[i] == "how do i sell"[i] {
      assert l[i] == LowerChar(a[i]);
    }
  }

  lemma LowerCaseTail(b: string)
    requires b == " my license?"
    ensures ToLower(b) == b
  {
    assert NoUpper(b);
    ToLowerFixesLowercase(b);
  }
}
