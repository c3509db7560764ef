/** tools/viewutils.py: closeness of two colours. */
module ViewUtils {

  /** A colour channel as `QColor` reports it. */
  type Channel = x: int | 0 <= x < 256

  datatype Color = Color(red: Channel, green: Channel, blue: Channel, alpha: Channel)

  function Abs(x: int): nat {
    if x < 0 then -x else x
  }

  /** The L1 distance between the colours' red, green and blue channels. */
  function Distance(c1: Color, c2: Color): nat {
    Abs(c1.red - c2.red) + Abs(c1.green - c2.green) + Abs(c1.blue - c2.blue)
  }

  /** `close_color`: the channel differences add up to less than 30. */
  function CloseColor(c1: Color, c2: Color): (r: bool)
    ensures r ==> Abs(c1.red - c2.red) < 30 && Abs(c1.green - c2.green) < 30 && Abs(c1.blue - c2.blue) < 30
    ensures r <==> Distance(c1, c2) < 30
  {
    Distance(c1, c2) < 30
  }

  /** Every colour is close to itself. */
  lemma CloseColorReflexive(c: Color)
    ensures CloseColor(c, c)
  {
  }

  /** Closeness does not depend on the order of the arguments. */
  lemma CloseColorSymmetric(c1: Color, c2: Color)
    ensures CloseColor(c1, c2) == CloseColor(c2, c1)
  {
  }

  /** The alpha channel is never consulted. */
  lemma CloseColorIgnoresAlpha(c1: Color, c2: Color, a1: Channel, a2: Channel)
    ensures CloseColor(c1.(alpha := a1), c2.(alpha := a2)) == CloseColor(c1, c2)
  {
  }

  /** The threshold is strict: a total difference of exactly 30 is not close. */
  lemma CloseColorStrict(c1: Color, c2: Color)
    requires Distance(c1, c2) == 30
    ensures !CloseColor(c1, c2)
  {
  }
}
