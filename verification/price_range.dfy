/** The numbers a product card and a product page read out of a `price_range` label such as
    "150-300": the label is split on '-', every piece loses its non-digits, and the pieces
    that still hold a digit are read as decimal numbers. */
module PriceRange {
  import opened Wrappers
  import opened Text

  /** `parseInt(piece.replace(/[^\d]/g, ''), 10)`, with `None` for NaN. */
  function PieceNumber(piece: string): (r: Option<int>)
    ensures r.None? <==> OnlyDigits(piece) == []
    ensures r.Some? ==> r.value == DecimalValue(OnlyDigits(piece))
  {
    var ds := OnlyDigits(piece);
    assert |ds| > 0 ==> ParseInt(ds, Decimal) == Some(DecimalValue(ds)) by {
      if |ds| > 0 {
        ParseIntOfDigits(ds, Decimal);
      }
    }
    ParseInt(ds, Decimal)
  }

  /** `.map(PieceNumber).filter((n) => !Number.isNaN(n))`. */
  function Numbers(pieces: seq<string>): (r: seq<int>)
    ensures |r| <= |pieces|
    ensures forall k :: 0 <= k < |r| ==> r[k] >= 0
  {
    if |pieces| == 0 then []
    else
      match PieceNumber(pieces[0])
      case Some(n) => [n] + Numbers(pieces[1..])
      case None => Numbers(pieces[1..])
  }

  /** A number is in the list exactly when some piece reads as it. */
  lemma {:induction false} NumbersMembers(pieces: seq<string>, n: int)
    ensures n in Numbers(pieces) <==> exists k :: 0 <= k < |pieces| && PieceNumber(pieces[k]) == Some(n)
    decreases |pieces|
  {
    if |pieces| > 0 {
      NumbersMembers(pieces[1..], n);
      if exists k :: 0 <= k < |pieces[1..]| && PieceNumber(pieces[1..][k]) == Some(n) {
        var k :| 0 <= k < |pieces[1..]| && PieceNumber(pieces[1..][k]) == Some(n);
        assert pieces[k + 1] == pieces[1..][k];
      }
      if exists k :: 0 <= k < |pieces| && PieceNumber(pieces[k]) == Some(n) {
        var k :| 0 <= k < |pieces| && PieceNumber(pieces[k]) == Some(n);
        if k > 0 {
          assert pieces[1..][k - 1] == pieces[k];
        }
      }
    }
  }

  function PriceRangeNumbers(priceRange: string): seq<int> {
    Numbers(Split(priceRange, '-'))
  }

  /** The first number of the list comes from the first piece that holds a digit. */
  lemma {:induction false} NumbersHead(pieces: seq<string>)
    requires |Numbers(pieces)| > 0
    ensures exists k :: 0 <= k < |pieces| && PieceNumber(pieces[k]) == Some(Numbers(pieces)[0])
                        && forall j :: 0 <= j < k ==> PieceNumber(pieces[j]).None?
    decreases |pieces|
  {
    if PieceNumber(pieces[0]).None? {
      NumbersHead(pieces[1..]);
      var k :| 0 <= k < |pieces[1..]| && PieceNumber(pieces[1..][k]) == Some(Numbers(pieces[1..])[0])
               && forall j :: 0 <= j < k ==> PieceNumber(pieces[1..][j]).None?;
      assert pieces[k + 1] == pieces[1..][k];
      forall j | 0 <= j < k + 1 ensures PieceNumber(pieces[j]).None? {
        if j > 0 {
          assert pieces[j] == pieces[1..][j - 1];
        }
      }
    } else {
      assert PieceNumber(pieces[0]) == Some(Numbers(pieces)[0]);
    }
  }

  /** The smallest of a non-empty list: `Math.min(...ns)`. */
  function MinOf(ns: seq<int>): (m: int)
    requires |ns| > 0
    ensures m in ns
    ensures forall k :: 0 <= k < |ns| ==> m <= ns[k]
  {
    if |ns| == 1 then ns[0]
    else
      var rest := MinOf(ns[1..]);
      assert forall k :: 1 <= k < |ns| ==> ns[k] == ns[1..][k - 1];
      if ns[0] <= rest then ns[0] else rest
  }

  lemma PieceExample150()
    ensures PieceNumber("150") == Some(150)
  {
    assert OnlyDigits("150") == "150" by {
      assert OnlyDigits("0") == "0";
      assert OnlyDigits("50") == "50";
    }
    assert DecimalValue("1") == 1;
    assert "15"[..1] == "1";
    assert DecimalValue("15") == 15;
    assert "150"[..2] == "15";
    assert DecimalValue("150") == 150;
  }

  lemma PieceExample300()
    ensures PieceNumber("300") == Some(300)
  {
    assert OnlyDigits("300") == "300" by {
      assert OnlyDigits("0") == "0";
      assert OnlyDigits("00") == "00";
    }
    assert DecimalValue("3") == 3;
    assert "30"[..1] == "3";
    assert DecimalValue("30") == 30;
    assert "300"[..2] == "30";
    assert DecimalValue("300") == 300;
  }

  lemma SplitExample()
    ensures Split("300-150", '-') == ["300", "150"]
  {
    SplitAfterPiece("300", "150", '-');
    SplitWithoutSep("150", '-');
    assert "300" + ['-'] + "150" == "300-150";
  }

  lemma NumbersOfPiecesExample()
    ensures Numbers(["300", "150"]) == [300, 150]
  {
    PieceExample150();
    PieceExample300();
    var pieces := ["300", "150"];
    assert pieces[1..] == ["150"];
    assert ["150"][1..] == [];
    assert Numbers(["150"]) == [150];
  }

  lemma PriceRangeSteps(priceRange: string, pieces: seq<string>)
    requires Split(priceRange, '-') == pieces
    ensures PriceRangeNumbers(priceRange) == Numbers(pieces)
  {
  }

  /** "300-150" reads as 300 then 150. */
  lemma NumbersExample()
    ensures PriceRangeNumbers("300-150") == [300, 150]
  {
    SplitExample();
    NumbersOfPiecesExample();
    PriceRangeSteps("300-150", ["300", "150"]);
  }
}
