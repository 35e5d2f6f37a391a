/** The hero record of index.js (the Hero typedef, index.js:49-55) and the two ways JavaScript
    turns one of its possibly-absent fields into text. */
module Heroes {

  datatype Option<T> = None | Some(value: T)

  /** A parsed hero file. Every field is absent (undefined) when its pattern did not match. */
  datatype Hero = Hero(schema: Option<string>, name: Option<string>,
                       colouredName: Option<string>, skills: Option<string>)

  /** How Array.prototype.join renders an element: undefined becomes the empty string. */
  function JoinText(field: Option<string>): string
  {
    match field
    case None => ""
    case Some(text) => text
  }

  /** How a template literal or string concatenation renders a value: undefined becomes the
      text "undefined". */
  function TemplateText(field: Option<string>): string
  {
    match field
    case None => "undefined"
    case Some(text) => text
  }
}
