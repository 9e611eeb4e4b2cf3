/** Normalisation of US ticker symbols to the market-data provider's spelling
    (a share-class dot becomes a dash: BRK.B is fetched as BRK-B). */
module Tickers {

  function CleanUsTicker(ticker: string): (r: string)
    ensures |r| == |ticker|
    ensures '.' !in r
    ensures forall i :: 0 <= i < |ticker| && ticker[i] == '.' ==> r[i] == '-'
    ensures forall i :: 0 <= i < |ticker| && ticker[i] != '.' ==> r[i] == ticker[i]
  {
    if ticker == [] then []
    else [if ticker[0] == '.' then '-' else ticker[0]] + CleanUsTicker(ticker[1..])
  }

  /** Cleaning an already clean ticker changes nothing. */
  lemma CleanUsTickerIdempotent(ticker: string)
    ensures CleanUsTicker(CleanUsTicker(ticker)) == CleanUsTicker(ticker)
  {
    var once := CleanUsTicker(ticker);
    var twice := CleanUsTicker(once);
    assert forall i :: 0 <= i < |once| ==> once[i] != '.';
    assert forall i :: 0 <= i < |once| ==> twice[i] == once[i];
  }

  /** The only ticker spellings that clean to the same symbol differ at most
      in '.' versus '-'. */
  lemma CleanUsTickerCollision(a: string, b: string)
    requires CleanUsTicker(a) == CleanUsTicker(b)
    ensures |a| == |b|
    ensures forall i :: 0 <= i < |a| && a[i] != b[i] ==> (a[i] == '.' && b[i] == '-') || (a[i] == '-' && b[i] == '.')
  {
    var r := CleanUsTicker(a);
    assert forall i :: 0 <= i < |a| ==> r[i] == (if a[i] == '.' then '-' else a[i]);
  }
}
