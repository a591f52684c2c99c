/** Two properties that RFC 3629 promises: the order of code points is kept, and characters can be told apart. */
module Utf8Order {
  import opened Basics
  import opened Utf8

  /** Where the two differ first, the first string has the smaller byte. */
  predicate Before(a: Bytes, b: Bytes) {
    exists k :: 0 <= k < |a| && k < |b| && a[..k] == b[..k] && a[k] < b[k]
  }

  lemma DifferAt(a: Bytes, b: Bytes, k: nat)
    requires k < |a| && k < |b| && (forall j :: 0 <= j < k ==> a[j] == b[j]) && a[k] < b[k]
    ensures Before(a, b)
  {
    assert a[..k] == b[..k];
  }

  lemma OrderOfTwo(v: nat, w: nat)
    requires 0x7F < v < w <= 0x7FF
    ensures Before(Form(v), Form(w))
  {
    if v / 64 == w / 64 {
      DifferAt(Form(v), Form(w), 1);
    } else {
      DifferAt(Form(v), Form(w), 0);
    }
  }

  lemma Sextets(v: nat)
    ensures v / 4096 == v / 64 / 64 && v / 0x40000 == v / 64 / 64 / 64
  {
  }

  /** Where v and w agree but for the last sextet, that of v is smaller; where not, the rest of v is. */
  lemma LastSextet(v: nat, w: nat)
    requires v < w
    ensures if v / 64 == w / 64 then v % 64 < w % 64 else v / 64 < w / 64
  {
  }

  lemma OrderOfThree(v: nat, w: nat)
    requires 0x7FF < v < w <= 0xFFFF
    ensures Before(Form(v), Form(w))
  {
    Sextets(v);
    Sextets(w);
    LastSextet(v, w);
    if v / 64 == w / 64 {
      DifferAt(Form(v), Form(w), 2);
    } else {
      LastSextet(v / 64, w / 64);
      DifferAt(Form(v), Form(w), if v / 4096 == w / 4096 then 1 else 0);
    }
  }

  lemma OrderOfFour(v: nat, w: nat)
    requires 0xFFFF < v < w <= MAX_CODEPOINT
    ensures Before(Form(v), Form(w))
  {
    Sextets(v);
    Sextets(w);
    LastSextet(v, w);
    var v1, w1 := v / 64, w / 64;
    var v2, w2 := v1 / 64, w1 / 64;
    var v3, w3 := v2 / 64, w2 / 64;
    FourBytes(v, v1, v2, v3);
    FourBytes(w, w1, w2, w3);
    hide Form;
    if v1 == w1 {
      DifferAt(Form(v), Form(w), 3);
    } else {
      LastSextet(v1, w1);
      if v2 == w2 {
        DifferAt(Form(v), Form(w), 2);
      } else {
        LastSextet(v2, w2);
        DifferAt(Form(v), Form(w), if v3 == w3 then 1 else 0);
      }
    }
  }

  lemma FourBytes(v: nat, v1: nat, v2: nat, v3: nat)
    requires 0xFFFF < v <= MAX_CODEPOINT && v1 == v / 64 && v2 == v1 / 64 && v3 == v2 / 64
    ensures v3 <= 4 && Form(v) == [0xF0 + v3, 0x80 + v2 % 64, 0x80 + v1 % 64, 0x80 + v % 64]
  {
    Sextets(v);
  }

  /** Sorting by bytes is sorting by code points. */
  lemma FormsKeepOrder(v: nat, w: nat)
    requires v < w <= MAX_CODEPOINT
    ensures Before(Form(v), Form(w))
  {
    if w <= 0x7F || Width(v) != Width(w) {
      DifferAt(Form(v), Form(w), 0);
    } else if w <= 0x7FF {
      OrderOfTwo(v, w);
    } else if w <= 0xFFFF {
      OrderOfThree(v, w);
    } else {
      OrderOfFour(v, w);
    }
  }

  /** From 0x80 to 0xBF in all places but the first, and in those alone; the first tells how many there are. */
  lemma FirstByteTells(v: nat, k: nat)
    requires v <= MAX_CODEPOINT && k < |Form(v)|
    ensures k > 0 <==> 0x80 <= Form(v)[k] <= 0xBF
    ensures |Form(v)| == if Form(v)[0] < 0x80 then 1 else if Form(v)[0] < 0xE0 then 2
                         else if Form(v)[0] < 0xF0 then 3 else 4
  {
  }
}
