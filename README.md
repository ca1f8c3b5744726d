# CMS page-admin template tags, modelled in Dafny

This project models the template tags and filters of the CMS page admin
(`cms/templatetags/cms_admin.py`) that compute something of their own, and proves
what they promise:

- `clean_admin_list_filter` (`CleanAdminListFilter.get_context`). It sorts an admin
  list filter's choices by `query_string` with Python's stable `sorted`. Then a loop
  keeps the first choice of each run of equal query strings. The loop is modelled as
  the method `CmsAdmin.CleanAdminListFilter`. Its contract says the result is sorted
  and has distinct keys. It holds the same query strings as the input. The choice kept
  for each key is the first one the filter offered with that key. A lemma shows that
  this contract fixes the result completely.
- `sorted(..., key=lambda k: k['query_string'])` is modelled as a stable insertion
  sort (`FilterChoices.SortByKey`). Its contract says the result is ordered and is a
  permutation of the input. It also says the sort is stable: for every key, the
  choices with that key keep their order. Keys are compared as Python compares `str`
  values (`StringOrder.Le`, lexicographic by code point).
- `in_filtered(seq1, seq2)`: the elements of `seq1` that occur in `seq2`. They keep
  `seq1`'s order and its duplicates. `seq2` is a list, and membership is equality on
  the element type, which stands for Python's `==` within one type.
- `boolean_icon(value)`: picks the icon name `yes`, `no` or `unknown` by a dictionary
  lookup keyed by `True`, `False` and `None`. It then builds an `<img>` tag around that
  name and the value's `%s` text. Python's dictionary lookup uses `==`, so `1` and `0`
  also find `yes` and `no`; the model keeps this. The icon base
  (`CMS_ADMIN_ICON_BASE`) is a parameter.
- `page_submit_row` (`PageSubmitRow.get_context`): the table that decides which
  submit buttons the page change form shows. As in the source, the `basic_info` flag
  is read from the `advanced_settings` context key, and the other way round.
- `admin_static_url`: `ADMIN_MEDIA_PREFIX` when it is set to a non-empty string,
  otherwise `STATIC_URL + 'admin/'`.

Files: `wrappers.dfy` (Option), `string_order.dfy` (Python string order),
`filter_choices.dfy` (choices, keys, the stable sort), `cms_admin.dfy` (the tags).

## Model

| member | source | states |
|---|---|---|
| `CmsAdmin.CleanAdminListFilter` | cms/templatetags/cms_admin.py:108-116 | The title is passed through unchanged. The returned choices are sorted by query string and no two share one. Their query strings are exactly those of the input. Each kept choice is the first choice the filter offered with its query string. |
| `CmsAdmin.CleanChoicesDetermined` | cms/templatetags/cms_admin.py:108-116 | Two choice lists that both satisfy that contract for the same input are equal, so the contract determines the tag's output. |
| `CmsAdmin.KeepStep` | cms/templatetags/cms_admin.py:113-115 | When a sorted choice's key differs from the last key seen, appending it keeps the kept list strictly increasing, covering the keys seen, and first-of-key. |
| `CmsAdmin.SkipStep` | cms/templatetags/cms_admin.py:112-113 | A sorted choice whose key equals the last key seen is dropped, and the loop invariant still holds. |
| `CmsAdmin.DedupDone` | cms/templatetags/cms_admin.py:112-116 | After the loop, the kept choices are sorted, have distinct keys, cover the input's keys, and are the first input choice of their key. |
| `CmsAdmin.ExtendStrictlySorted` | cms/templatetags/cms_admin.py:113-114 | Appending a choice whose key is above the last kept key keeps the kept list strictly increasing. |
| `FilterChoices.SortByKey` | cms/templatetags/cms_admin.py:109 | `sorted` by query string gives an ordered permutation of its input. For every key, the choices with that key appear in their original order, so the sort is stable. |
| `FilterChoices.SortByKeyKeepsFirst` | cms/templatetags/cms_admin.py:109 | After the stable sort, the first choice with a given key is the same as before sorting. |
| `FilterChoices.InsertSorted` | cms/templatetags/cms_admin.py:109 | Inserting into a sorted list keeps it sorted. |
| `FilterChoices.InsertPermutes` | cms/templatetags/cms_admin.py:109 | Insertion adds exactly the inserted choice to the multiset of choices. |
| `FilterChoices.InsertWithKey` | cms/templatetags/cms_admin.py:109 | The inserted choice goes ahead of all choices with an equal key. All other runs keep their order. |
| `FilterChoices.KeysOfPermutation` | cms/templatetags/cms_admin.py:109 | Sorting does not change the set of query strings. |
| `FilterChoices.FirstOfRun` | cms/templatetags/cms_admin.py:112-115 | In a sorted list, a choice whose predecessor has a different key is the first choice with its key. |
| `FilterChoices.RunBoundary` | cms/templatetags/cms_admin.py:112-115 | In a sorted list, every choice before a change of key has a strictly smaller key than the choice after it. |
| `FilterChoices.FirstFinds` | cms/templatetags/cms_admin.py:113-115 | A first choice with key `k` exists exactly when `k` occurs. When it exists, it is a member of the list and carries key `k`. |
| `FilterChoices.FirstIsLeastIndex` | cms/templatetags/cms_admin.py:113-115 | The first choice with key `k` is the one at the least index that carries `k`. |
| `StringOrder.LeReflexive` | cms/templatetags/cms_admin.py:109 | Python's string `<=` is reflexive. |
| `StringOrder.LeTotal` | cms/templatetags/cms_admin.py:109 | Any two query strings are comparable. |
| `StringOrder.LeAntisymmetric` | cms/templatetags/cms_admin.py:109 | Two query strings that are each `<=` the other are equal. |
| `StringOrder.LeTransitive` | cms/templatetags/cms_admin.py:109 | String `<=` is transitive. |
| `StringOrder.LtTransitive` | cms/templatetags/cms_admin.py:109 | String `<` is transitive. |
| `StringOrder.NotLeIsLt` | cms/templatetags/cms_admin.py:109 | If `b <= a` fails, then `a < b`. |
| `CmsAdmin.InFiltered` | cms/templatetags/cms_admin.py:209-210 | Every element of the result is in both `seq1` and `seq2`. An element of `seq2` occurs in the result as often as in `seq1`; other elements do not occur. The result is no longer than `seq1`. |
| `CmsAdmin.InFilteredIsSubsequence` | cms/templatetags/cms_admin.py:210 | The result is a subsequence of `seq1`, so `seq1`'s order is kept. |
| `CmsAdmin.InFilteredConcat` | cms/templatetags/cms_admin.py:210 | Filtering a concatenation gives the concatenation of the filtered parts. The filter decides element by element. |
| `CmsAdmin.InFilteredIdempotent` | cms/templatetags/cms_admin.py:210 | Filtering an already filtered sequence again by the same `seq2` changes nothing. |
| `CmsAdmin.IconName` | cms/templatetags/cms_admin.py:124-126 | The icon is `yes` exactly when the value is `==` to `True`, and `no` exactly when it is `==` to `False`. Every other hashable value, `None` included, gets `unknown`. |
| `CmsAdmin.ParseIconAs` | cms/templatetags/cms_admin.py:126 | When reading a tag back succeeds, the tag has the fixed `<img src="…icon-NAME.gif" alt="…" />` shape, with the name and text it returns. |
| `CmsAdmin.BooleanIcon` | cms/templatetags/cms_admin.py:122-126 | The tag has the fixed `<img src="BASEicon-NAME.gif" alt="TEXT" />` shape. Reading it back gives the icon name chosen for the value and the value's `%s` text unchanged, for every icon base and value. |
| `CmsAdmin.ParseIconBuilt` | cms/templatetags/cms_admin.py:126 | A tag built around `yes`, `no` or `unknown` and any text reads back as exactly that name and text. |
| `CmsAdmin.Str` | cms/templatetags/cms_admin.py:126 | The value's `%s` text, as Python prints it. `True`, `False` and `None` print as `True`, `False` and `None`, and a string prints as itself. An integer prints as canonical decimal: an optional minus sign, no leading zero, no `-0`, and the text denotes that integer. |
| `CmsAdmin.NatDigits` | cms/templatetags/cms_admin.py:126 | A natural number prints as decimal digits without a leading zero that denote it. |
| `CmsAdmin.PageSubmitRow` | cms/templatetags/cms_admin.py:182-203 | Save is always shown. Delete and save-and-add-another are never shown. Save-as-new is shown iff not a popup, a change form and `save_as`. Save-and-continue is shown iff not a popup and the user has change permission. `onclick` is the `submitOrderForm` attribute iff ordered objects exist and it is a change form, otherwise empty. `basic_info` comes from the `advanced_settings` key and vice versa, defaulting to false. `is_popup`, `language` and `object_id` pass through. |
| `CmsAdmin.AdminStaticUrl` | cms/templatetags/cms_admin.py:216-221 | The URL is `ADMIN_MEDIA_PREFIX` when that is set and non-empty, otherwise `STATIC_URL + 'admin/'`. It is never empty. |

## Left out

- `ShowAdminMenu` and `ShowLazyAdminMenu` (cms_admin.py:25-92) only delegate to `get_admin_menu_item_context` and update the framework's context. That function is not part of this model.
- `is_restricted` (cms_admin.py:129-145) depends on a settings lookup, a permission database query and translation.
- `preview_link` (cms_admin.py:148-161) is URL resolution in the ORM behind a catch-all `except`, so what it does is decided by foreign code.
- `RenderPlugin` (cms_admin.py:164-172) is a call into plugin rendering.
- The choice of `CMS_ADMIN_ICON_BASE` by framework version (cms_admin.py:19-22) and the `cms_admin_icon_base` tag (cms_admin.py:224-228) are left out. The icon base is a string parameter of `BooleanIcon`.
- Template-library registration, `mark_safe` and HTML escaping belong to the framework. The tag text is built without escaping, as in the source.
- `spec.choices(cl)` and `spec.title` come from the framework's filter object. They are inputs of `CleanAdminListFilter`. A choice is modelled with the three keys the admin filter template uses: `selected`, `query_string` and `display`.
- Query strings are modelled as character sequences compared by code point. Mixed byte and Unicode strings are not modelled, and neither are non-string or `None` query strings.
- `IconName`: values are booleans, `None`, integers or other hashable objects shown by their `%s` text. The lookup hashes the value first, so an unhashable value (a list, dict or set) raises `TypeError` in the source; that error path is not modelled. Formatting a byte string with non-ASCII bytes into the Unicode template raises `UnicodeDecodeError` in the source; that is not modelled either. Floats equal to 0 or 1, which would also hit the mapping, are not modelled. Neither are objects with their own `__eq__`.
- `PageSubmitRow`: the context is a record, so a missing key that the source reads unconditionally (`opts`, `change`, `is_popup`, `save_as`, `language`) cannot occur. The same holds for `has_change_permission`, which is required only when not a popup, since line 196 reads it only after `not is_popup`. The `KeyError` the source would raise for a missing key is not modelled. Context values are booleans, not arbitrary truthy objects. `opts.get_ordered_objects()` is modelled by the number of objects it lists.
- `InFiltered`: membership is equality on the element type `T`, and `seq2` is a list. Python's `in` also matches across types (`True == 1 == 1.0`, so `in_filtered([True], [1])` is `[True]`), and it honours a custom `__eq__`, such as Django model instances comparing by primary key. A `seq2` that is not a list uses that container's own `__contains__`: a substring test for a `str`, a key test for a `dict`. None of these are modelled.
- `AdminStaticUrl`: a non-string `ADMIN_MEDIA_PREFIX` or `STATIC_URL` is not modelled.
