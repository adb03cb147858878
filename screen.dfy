/** The screen protocol (src/screen.ts): a screen owns a field, reacts to key
    presses and, once per frame, may return a message for the host. */
module Screens {
  import opened Wrappers
  import opened Fields

  datatype ScreenMsgType = Close | Redraw | Gameover

  /** A message for the host; `data` is optional (the final score of a game over). */
  datatype ScreenMsg = ScreenMsg(msg: ScreenMsgType, data: Option<int>)

  class BaseScreen {
    const displayField: Field
    var closing: bool

    constructor ()
      ensures fresh(displayField) && fresh(displayField.data) && displayField.Valid()
      ensures displayField.data[..] == InitialCells()
      ensures !closing
    {
      displayField := new Field();
      closing := false;
    }

    /** A space key starts closing the screen (and is consumed: the returned
        flag stands for the call to preventDefault); any other key changes
        nothing. Closing is never undone. */
    method Input(key: string) returns (preventDefault: bool)
      modifies this`closing
      ensures closing == (old(closing) || key == " ")
      ensures old(closing) ==> closing
      ensures preventDefault == (key == " ")
    {
      preventDefault := false;
      if key == " " {
        closing := true;
        preventDefault := true;
      }
    }

    /** Reports `close` exactly while closing and nothing otherwise; the frame
        time is not used and no state changes, so once a screen is closing
        every later update reports `close`. */
    method Update(delta: real) returns (m: Option<ScreenMsg>)
      ensures m.Some? <==> closing
      ensures m.Some? ==> m.value.msg == Close && m.value.data == None
    {
      if closing {
        return Some(ScreenMsg(Close, None));
      }
      return None;
    }
  }
}
