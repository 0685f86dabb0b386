/** The rows the launcher renders and the actions they run when chosen. */
module Items {
  import opened Wrappers

  /** Hide the launcher window, copy a text, open a URL, or replace the query. */
  datatype Action =
    | HideWindow
    | CopyToClipboard(text: string)
    | OpenUrl(url: string)
    | SetUserQuery(query: string)

  /** A result row: icon, title, description, the action on Enter and the
      optional one on Alt+Enter. */
  datatype Item = Item(icon: string, name: string, description: string,
                       onEnter: Action, onAltEnter: Option<Action>)

  const ICON := "images/icon.png"
}
