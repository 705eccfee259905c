/**
 * The command buffer the xray view types its filter into (`ui.CmdBuff`). The `ui`
 * package is not part of this model: the operations below state the behaviour the
 * view relies on, as assumptions about that package.
 *   - `Delete` drops the last character, if there is one;
 *   - `Clear` empties the text and leaves the active flag alone;
 *   - `Reset` empties the text and deactivates the buffer;
 *   - `InCmdMode` holds while the buffer is active or holds text;
 *   - listeners form a set.
 */
module Buffer {

  /** Who listens to buffer changes: the app's command line, the xray view, or someone else. */
  datatype Listener = CmdLine | XrayView | Other(name: string)

  /** The two listeners the xray view registers while its watch runs. */
  const ViewListeners: set<Listener> := {CmdLine, XrayView}

  class CmdBuff {
    var text: string
    var active: bool
    var listeners: set<Listener>

    constructor ()
      ensures text == "" && !active && listeners == {}
    {
      text, active, listeners := "", false, {};
    }

    predicate InCmdMode()
      reads this
    {
      active || text != ""
    }

    method SetActive(b: bool)
      modifies this
      ensures active == b && text == old(text) && listeners == old(listeners)
    {
      active := b;
    }

    method Delete()
      modifies this
      ensures text == if old(text) == "" then "" else old(text)[..|old(text)| - 1]
      ensures active == old(active) && listeners == old(listeners)
    {
      if text != "" {
        text := text[..|text| - 1];
      }
    }

    method Clear()
      modifies this
      ensures text == "" && active == old(active) && listeners == old(listeners)
    {
      text := "";
    }

    method Reset()
      modifies this
      ensures text == "" && !active && listeners == old(listeners)
    {
      text := "";
      active := false;
    }

    method AddListener(l: Listener)
      modifies this
      ensures listeners == old(listeners) + {l}
      ensures text == old(text) && active == old(active)
    {
      listeners := listeners + {l};
    }

    method RemoveListener(l: Listener)
      modifies this
      ensures listeners == old(listeners) - {l}
      ensures text == old(text) && active == old(active)
    {
      listeners := listeners - {l};
    }
  }
}
