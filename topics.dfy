/**
  The topic catalog of the web-development guide: a fixed, ordered table of
  topics, the fixed list of category names, a lookup by URL slug and two
  order-preserving filters over the table.
*/
module TopicCatalog {
  import opened Wrappers

  /** One lesson of the guide. Title, description, icon and colour are display data. */
  datatype Topic = Topic(
    slug: string,
    title: string,
    description: string,
    icon: string,
    color: string,
    category: string,
    implemented: bool)

  /** A named group of topics; declared by the catalog, not built by any of its functions. */
  datatype TopicCategory = TopicCategory(name: string, topics: seq<Topic>)

  /** The catalog, in the order the guide presents it. */
  const Topics: seq<Topic> := [
    Http, Dns, Internet, BrowserRendering, EventLoop,
    RestApi, Websockets, Graphql, Authentication, WebSecurity, Caching, Databases, ServerArchitecture
  ]

  // Foundation
  const Http: Topic := Topic("http", "HTTP/HTTPS",
    "Request/response cycle, methods, status codes, headers, and TLS encryption",
    "\U{1F310}", "blue", "Foundation", true)
  const Dns: Topic := Topic("dns", "DNS",
    "How domain names resolve to IP addresses, DNS hierarchy, and caching",
    "\U{1F50D}", "cyan", "Foundation", true)
  const Internet: Topic := Topic("internet", "How the Internet Works",
    "TCP/IP stack, packets, routing, and network fundamentals",
    "\U{1F30D}", "green", "Foundation", true)
  // Browser & Rendering
  const BrowserRendering: Topic := Topic("browser-rendering", "Browser Rendering",
    "DOM, CSSOM, render tree, layout, paint, and composite stages",
    "\U{1F5A5}\U{FE0F}", "purple", "Browser", true)
  const EventLoop: Topic := Topic("event-loop", "JavaScript Event Loop",
    "Call stack, task queue, microtasks, and async execution",
    "\U{1F504}", "yellow", "Browser", true)
  // APIs
  const RestApi: Topic := Topic("rest-api", "REST APIs",
    "Resources, endpoints, CRUD operations, and best practices",
    "\U{1F4E1}", "orange", "APIs", false)
  const Websockets: Topic := Topic("websockets", "WebSockets",
    "Real-time bi-directional communication and handshake process",
    "\U{26A1}", "pink", "APIs", false)
  const Graphql: Topic := Topic("graphql", "GraphQL",
    "Queries, mutations, schemas, and comparison with REST",
    "\U{25C8}", "pink", "APIs", false)
  // Security
  const Authentication: Topic := Topic("authentication", "Authentication",
    "Sessions, cookies, JWT tokens, and OAuth 2.0 flows",
    "\U{1F510}", "purple", "Security", false)
  const WebSecurity: Topic := Topic("web-security", "Web Security",
    "CORS, XSS, CSRF, CSP headers, and common vulnerabilities",
    "\U{1F6E1}\U{FE0F}", "orange", "Security", false)
  // Architecture
  const Caching: Topic := Topic("caching", "Caching Strategies",
    "Browser cache, CDN, server-side caching, and cache headers",
    "\U{1F4BE}", "cyan", "Architecture", false)
  const Databases: Topic := Topic("databases", "Database Fundamentals",
    "SQL vs NoSQL, indexing, transactions, and ACID properties",
    "\U{1F5C4}\U{FE0F}", "green", "Architecture", false)
  const ServerArchitecture: Topic := Topic("server-architecture", "Server Architecture",
    "Load balancing, scaling, microservices, and deployment",
    "\U{1F3D7}\U{FE0F}", "blue", "Architecture", false)

  const Categories: seq<string> := ["Foundation", "Browser", "APIs", "Security", "Architecture"]

  /**
    The callbacks the catalog hands to `Array.prototype.find` and
    `Array.prototype.filter`: a slug match, a category match and the
    implemented flag.
  */
  datatype Criterion = SlugIs(slug: string) | CategoryIs(category: string) | Implemented

  predicate Matches(c: Criterion, t: Topic)
  {
    match c
    case SlugIs(slug) => t.slug == slug
    case CategoryIs(category) => t.category == category
    case Implemented => t.implemented
  }

  /** `r` can be obtained from `s` by deleting elements, keeping the rest in order. */
  ghost predicate IsSubsequence<T>(r: seq<T>, s: seq<T>)
    decreases |s|
  {
    if |r| == 0 then true
    else if |s| == 0 then false
    else (r[0] == s[0] && IsSubsequence(r[1..], s[1..])) || IsSubsequence(r, s[1..])
  }

  /** The number of topics of `s` that satisfy `c`. */
  function Count(s: seq<Topic>, c: Criterion): nat
  {
    if |s| == 0 then 0
    else (if Matches(c, s[0]) then 1 else 0) + Count(s[1..], c)
  }

  /** `i` is the position of the first topic of `s` that satisfies `c`. */
  ghost predicate IsFirstMatch(s: seq<Topic>, c: Criterion, i: int)
  {
    0 <= i < |s| && Matches(c, s[i]) && forall j :: 0 <= j < i ==> !Matches(c, s[j])
  }

  /**
    `Array.prototype.find`: the first topic, in sequence order, that satisfies
    `c`, or `None` (JavaScript's `undefined`) when no topic does.
  */
  function Find(s: seq<Topic>, c: Criterion): (r: Option<Topic>)
    ensures r.Some? ==> r.value in s && Matches(c, r.value)
    ensures r.None? <==> forall i :: 0 <= i < |s| ==> !Matches(c, s[i])
    ensures r.Some? ==> exists i :: IsFirstMatch(s, c, i) && s[i] == r.value
  {
    if |s| == 0 then None
    else if Matches(c, s[0]) then
      assert IsFirstMatch(s, c, 0);
      Some(s[0])
    else
      var r := Find(s[1..], c);
      if r.Some? then
        assert exists i :: IsFirstMatch(s, c, i) && s[i] == r.value by {
          var i :| IsFirstMatch(s[1..], c, i) && s[1..][i] == r.value;
          assert IsFirstMatch(s, c, i + 1);
        }
        r
      else
        r
  }

  /**
    `Array.prototype.filter`: the topics of `s` that satisfy `c`, each as many
    times as it occurs in `s`, in their original order.
  */
  function Filter(s: seq<Topic>, c: Criterion): (r: seq<Topic>)
    ensures IsSubsequence(r, s)
    ensures forall i :: 0 <= i < |r| ==> Matches(c, r[i])
    ensures |r| == Count(s, c)
  {
    if |s| == 0 then []
    else if Matches(c, s[0]) then
      var r := [s[0]] + Filter(s[1..], c);
      assert r[1..] == Filter(s[1..], c);
      r
    else
      Filter(s[1..], c)
  }

  /**
    `getTopicBySlug`: the topic whose slug is `slug`, the first such in table
    order, or `None` when no topic has that slug.
  */
  function GetTopicBySlug(slug: string): (r: Option<Topic>)
    ensures r.Some? ==> r.value in Topics && r.value.slug == slug
    ensures r.None? <==> forall i :: 0 <= i < |Topics| ==> Topics[i].slug != slug
    ensures r.Some? ==> exists i :: IsFirstMatch(Topics, SlugIs(slug), i) && Topics[i] == r.value
  {
    Find(Topics, SlugIs(slug))
  }

  /** `getTopicsByCategory`: the topics of category `category`, in table order. */
  function GetTopicsByCategory(category: string): (r: seq<Topic>)
    ensures IsSubsequence(r, Topics)
    ensures forall i :: 0 <= i < |r| ==> r[i].category == category
    ensures |r| == Count(Topics, CategoryIs(category))
  {
    Filter(Topics, CategoryIs(category))
  }

  /** `getImplementedTopics`: the topics whose lesson is available, in table order. */
  function GetImplementedTopics(): (r: seq<Topic>)
    ensures IsSubsequence(r, Topics)
    ensures forall i :: 0 <= i < |r| ==> r[i].implemented
    ensures |r| == Count(Topics, Implemented)
  {
    Filter(Topics, Implemented)
  }
}
