# WebDevGuide topic catalog, modelled in Dafny

WebDevGuide is an educational site. It teaches web and networking topics, such as
HTTP, DNS and the browser rendering pipeline. Its lesson pages are driven by a
**topic catalog**: a fixed, ordered table of thirteen topics and a fixed list of
five category names. Three functions read the table:

- `getTopicBySlug` looks a topic up by its URL slug. It returns the first match or `undefined`.
- `getTopicsByCategory` lists the topics of one category, in table order.
- `getImplementedTopics` lists the topics whose lesson exists, in table order.

The model is pure. The catalog is constant data, and the three functions are
single expressions over `Array.prototype.find` and `Array.prototype.filter`.

Files:

- `wrappers.dfy`: the `Option` type. Its `None` stands for JavaScript's `undefined`.
- `topics.dfy`: module `TopicCatalog`. It holds the `Topic` record and the table
  (each topic is a named constant, listed in source order), the category names,
  and `Find` and `Filter`, which model `Array.prototype.find` and
  `Array.prototype.filter`. It also holds the three catalog functions.
- `catalog_properties.dfy`: module `CatalogProperties`. It proves what `Filter`
  computes, checks the invariants of the literal table, and proves the properties
  of the three lookups that follow from them.

`find` and `filter` take a callback in JavaScript. Here, the three callbacks the
catalog passes (`t.slug === slug`, `t.category === category` and `t.implemented`)
are the three cases of the datatype `Criterion`. `Matches` interprets a `Criterion`.
Icons are written as Unicode escapes of the exact code points in the source, and
every other string is copied verbatim.

## Model

| member | source | states |
|---|---|---|
| `TopicCatalog.Find` | src/lib/data/topics.ts:148 | `find` semantics. A returned topic is in the sequence and satisfies the criterion, and it is at the first position that does. `None` is returned exactly when no element satisfies the criterion. |
| `TopicCatalog.Filter` | src/lib/data/topics.ts:151-157 | `filter` semantics. The result is an order-preserving subsequence of the input, every element satisfies the criterion, and its length is the number of input elements that satisfy it. |
| `TopicCatalog.GetTopicBySlug` | src/lib/data/topics.ts:147-149 | A returned topic is in the table and has the requested slug, and it is the first such topic in table order. `None` is returned exactly when no topic of the table has that slug. |
| `TopicCatalog.GetTopicsByCategory` | src/lib/data/topics.ts:151-153 | The result is a subsequence of the table in table order. All its topics have the requested category, and it has as many as the table has. |
| `TopicCatalog.GetImplementedTopics` | src/lib/data/topics.ts:155-157 | The result is a subsequence of the table in table order. All its topics are implemented, and it has as many as the table has. |
| `CatalogProperties.FilterContains` | src/lib/data/topics.ts:151-157 | A topic is in a filter's result exactly when it is in the input and satisfies the criterion. |
| `CatalogProperties.SubsequenceBound` | src/lib/data/topics.ts:151-157 | A subsequence whose elements all satisfy the criterion is no longer than the number of matching input elements. `Filter` therefore keeps the most elements possible. |
| `CatalogProperties.FilterUnique` | src/lib/data/topics.ts:151-157 | Any subsequence of matching elements whose length equals the number of matches is exactly the filter's result. |
| `CatalogProperties.FilterCharacterization` | src/lib/data/topics.ts:151-157 | Both directions: a sequence equals the filter's result if and only if it is a subsequence of matching elements as long as the number of matches. |
| `CatalogProperties.FilterConcat` | src/lib/data/topics.ts:151-157 | Filtering a concatenation gives the filtered parts concatenated in the same order. |
| `CatalogProperties.FilterKeepsAll` | src/lib/data/topics.ts:151-157 | When every element matches, the filter returns its input unchanged. |
| `CatalogProperties.FilterDropsAll` | src/lib/data/topics.ts:151-157 | When no element matches, the filter returns the empty sequence. |
| `CatalogProperties.TableSlugsDistinct` | src/lib/data/topics.ts:16-143 | No two topics of the table share a slug. |
| `CatalogProperties.TableCategoriesListed` | src/lib/data/topics.ts:16-145 | Every topic's category is one of the names in `categories`. |
| `CatalogProperties.CategoriesDistinct` | src/lib/data/topics.ts:145 | The five category names are pairwise distinct. |
| `CatalogProperties.GetTopicBySlugUnique` | src/lib/data/topics.ts:147-149 | Because slugs are distinct, the lookup of any table topic's slug returns that very topic. So the first match is the only match. |
| `CatalogProperties.GetTopicsByCategoryContains` | src/lib/data/topics.ts:151-153 | A topic is in a category's list exactly when it is in the table with that category. |
| `CatalogProperties.GetImplementedTopicsContains` | src/lib/data/topics.ts:155-157 | A topic is in the implemented list exactly when it is in the table and implemented. |
| `CatalogProperties.UnknownCategoryEmpty` | src/lib/data/topics.ts:145-153 | A category not in `categories` (for example "Misc") has an empty list. |
| `CatalogProperties.TableSplitsAtFive` | src/lib/data/topics.ts:16-143 | The table is the five implemented topics followed by eight unimplemented ones. |
| `CatalogProperties.ImplementedTopicsAreFirstFive` | src/lib/data/topics.ts:155-157 | The implemented topics are http, dns, internet, browser-rendering and event-loop, in that order. |
| `CatalogProperties.OccurrencesOfDistinct` | src/lib/data/topics.ts:145 | A name of a list of distinct names occurs in it exactly once. |
| `CatalogProperties.CategoryTotalIsLength` | src/lib/data/topics.ts:151-153 | Take distinct category names that cover every topic's category. Then the category filters' sizes add up to the number of topics. |
| `CatalogProperties.CategorySizesCoverTable` | src/lib/data/topics.ts:145-153 | The lengths of `getTopicsByCategory` over all of `categories` add up to the table's 13 topics. |
| `CatalogProperties.TopicInExactlyOneCategory` | src/lib/data/topics.ts:145-153 | Every topic of the table is in the list of exactly one position of `categories`. |

## Left out

- The `TopicCategory` record (src/lib/data/topics.ts:11-14) is declared as a datatype. No catalog function builds or reads one, so it has no operations.
- `find` and `filter` calls work with any callback. The model only covers the three callbacks the catalog passes, which are the cases of `Criterion`.
- JavaScript object identity is not modelled. `find` and `filter` return references to the table's own objects, but the model returns equal values.
- The filters do not change the table. A Dafny constant cannot change, so this holds without a lemma.
- The page loader `src/routes/topics/[slug]/+page.ts` calls `getTopicBySlug`. It is a caller of the catalog, not part of it, so it is not modelled. It answers 404 with "Topic not found" or "Topic coming soon".
- The animated diagrams are the `.svelte` components re-exported by `src/lib/components/topics/browser-rendering/index.ts` and `src/lib/components/topics/websockets/index.ts`. They are presentation, so they are not modelled.
- `tailwind.config.js` and `svelte.config.js` are left out. They are static theme data and build configuration. The build configuration reads the environment and foreign adapters.
- Strings are modelled as Dafny `string`, a sequence of Unicode scalar values. TypeScript strings are sequences of UTF-16 code units, so a slug or category containing a lone surrogate cannot be passed to `GetTopicBySlug` or `GetTopicsByCategory`; in JavaScript those calls return `undefined` and `[]`. Equality on well-formed strings agrees in both, so no proved property is affected.
