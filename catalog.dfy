/** The catalog entities the core reads: careers as the career database and
    the admin panel hold them. Images, videos and universities are carried
    along for the admin panel; scoring reads only the name, the type and
    the categories. */
module Catalog {

  datatype Career = Career(
    name: string,
    careerType: string,
    description: string,
    salary: string,
    image: string,
    universities: seq<string>,
    youtubeLink: string,
    categories: seq<string>,
    skills: seq<string>)
}
