/** MoveInfo.cs: what one pass over the board reports. */
module MoveInfos {

  /** The points a pass earned and whether any tile slid or merged. */
  class MoveInfo {
    var score: int
    var shifted: bool

    /** A fresh report: nothing earned, nothing moved. */
    constructor()
      ensures score == 0 && !shifted
    {
      score := 0;
      shifted := false;
    }
  }
}
