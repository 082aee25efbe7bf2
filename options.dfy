/** An optional value. `None` stands for JavaScript's `undefined` or `null`:
    a missing `data-theme` attribute, a link without `href`, a form field
    that `FormData.get` does not find, an empty storage slot. */
module Options {
  datatype Option<+T> = None | Some(value: T)
}
