/**
 * What the user answers to the script's dialogs. A prompt (OK_CANCEL) yields
 * the button pressed and the text typed; an alert (YES_NO) only a button.
 * Close is the dialog dismissed without a button.
 */
module Dialogs {
  datatype Button = Ok | Cancel | Yes | No | Close

  datatype Reply = Reply(button: Button, text: string)
}
