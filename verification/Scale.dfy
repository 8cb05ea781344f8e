/** The older server's scaling of one 32-bit word, with its error codes. */
module Scale {
  import opened Bytes
  import opened Scaling
  type int32 = n: int | -0x8000_0000 <= n < 0x8000_0000
  const INVALID_RESULT: int32 := -1
  const INVALID_PARAM: int32 := -2

  function ToInt32(n: u32): int32 {
    if n < 0x8000_0000 then n else n - W32
  }

  /** `max_result` wraps to zero when the range divides 2^32. */
  function Scaled(word: u32, range: u32): int32 {
    if range < 1 then INVALID_PARAM
    else
      var maxResult := W32 / range * range % W32;
      if maxResult != 0 && maxResult <= word then INVALID_RESULT else ToInt32(word % range)
  }

  predicate Usable(word: u32, range: u32)
    requires range >= 1
  {
    word < W32 / range * range
  }

  /** The code for a rejected word is never a result, and the other way round. */
  lemma RejectedExactly(word: u32, range: u32)
    requires range >= 1
    ensures Scaled(word, range) == INVALID_RESULT <==> !Usable(word, range)
    ensures Usable(word, range) ==> Scaled(word, range) == ToInt32(word % range)
    ensures 1 <= W32 / range && W32 / range * range <= W32
  {
    var q, r := Quotient(W32, range);
    MulAtLeast(q - 1, range);
    assert (q - 1) * range == q * range - range;
    if q * range == W32 {
      ModuloUnique(W32, W32, 1, 0);
    } else {
      ModuloUnique(q * range, W32, 0, q * range);
    }
  }

  predicate Gives(word: u32, range: u32, code: int32) {
    Scaled(word, range) == code
  }

  ghost function WordsGiving(range: u32, code: int32): set<nat> {
    set n: nat | n < W32 && Gives(n, range, code)
  }

  /** No bias, for every range: each result below it is given by exactly as many words as
      any other, and the rest of the words is rejected. */
  lemma EqualScaled(range: u32, r: u32)
    requires r < range
    ensures |WordsGiving(range, ToInt32(r))| == W32 / range
    ensures |WordsGiving(range, INVALID_RESULT)| == W32 % range
  {
    var q, s := Quotient(W32, range);
    RejectedExactly(0, range);
    forall n: u32 ensures Gives(n, range, ToInt32(r)) <==> n < q * range && LeavesRest(n, range, r)
                  ensures Gives(n, range, INVALID_RESULT) <==> q * range <= n
    {
      RejectedExactly(n, range);
    }
    CountWithRest(0, q, range, r);
    assert WordsGiving(range, ToInt32(r)) == WithRest(0, q, range, r);
    CountWithRest(q * range, s, 1, 0);
    assert WordsGiving(range, INVALID_RESULT) == WithRest(q * range, s, 1, 0);
  }

  ghost predicate NegativeMeansError(range: u32) {
    forall word: u32 :: Scaled(word, range) < 0 ==> Scaled(word, range) in {INVALID_RESULT, INVALID_PARAM}
  }

  ghost predicate ResultsAsThemselves(range: u32) {
    forall word: u32 :: range >= 1 && Usable(word, range) ==> Scaled(word, range) == word % range
  }

  /** Above 2^31, every word below the range is its own result. */
  lemma LastResult(range: u32, word: u32)
    requires range > 0x8000_0000 && word < range
    ensures Usable(word, range) && word % range == word
  {
    ModuloUnique(W32, range, 1, W32 - range);
    ModuloUnique(word, range, 0, word);
  }

  /** The signed return type holds every result as long as the range is at most 2^31,
      and for no larger one. */
  lemma ResultsFit(range: u32)
    ensures ResultsAsThemselves(range) <==> range <= 0x8000_0000
  {
    if range > 0x8000_0000 {
      var word: u32 := 0x8000_0000;
      RejectedExactly(word, range);
      LastResult(range, word);
    } else if range >= 1 {
      forall word: u32 | Usable(word, range) ensures Scaled(word, range) == word % range {
        RejectedExactly(word, range);
      }
    }
  }

  /** A negative value is an error code for every word exactly when the range is at most
      2^31, or zero. */
  lemma NegativeIsError(range: u32)
    ensures NegativeMeansError(range) <==> range <= 0x8000_0000
  {
    if range > 0x8000_0000 {
      var word: u32 := 0x8000_0000;
      RejectedExactly(word, range);
      LastResult(range, word);
      assert Scaled(word, range) == -0x8000_0000;
    } else if range >= 1 {
      forall word: u32 | Scaled(word, range) < 0 ensures Scaled(word, range) == INVALID_RESULT {
        RejectedExactly(word, range);
        if Usable(word, range) {
          var _, _ := Quotient(word, range);
        }
      }
    }
  }

  /** A result can be taken for the code of a bad parameter only with the largest range
      of all. */
  lemma LooksLikeBadParameter(word: u32, range: u32)
    requires range >= 1
    ensures Scaled(word, range) == INVALID_PARAM <==> range == W32 - 1 && word == W32 - 2
  {
    RejectedExactly(word, range);
    var c, s := Quotient(word, range);
    if range == W32 - 1 && word == W32 - 2 {
      LastResult(range, word);
    }
    if Scaled(word, range) == INVALID_PARAM {
      MulAtLeast(c, range);
    }
  }
}
